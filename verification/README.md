# Verified model of the pre-kernel

The pre-kernel starts a kernel on x86-64 and RISC-V: it keeps the physical memory map, builds
page tables, loads the kernel's ELF image, maps a page database and a direct map of all memory,
exports the memory map and starts all cores together. This project models that code in Dafny
and proves what it promises.

## What is modelled

* **The physical memory map** (`MemoryMap`, `MapUpdate`, `Allocation`, `SlotTrace`, `Pmm`,
  `Limits`). A fixed array of 1024 entries of which a prefix is live, updated in place with trims,
  splits, deletions, merges and recursion, exactly as in `pmm.c`, including the dead slots behind
  the prefix. The abstract view is the list of kinds that describe an address. `Fits` is the exact
  condition under which setting a range works: the code has a case that no branch matches (an
  entry inside the range that shares exactly one endpoint with it), and `Pmm.Set` proves that the
  map stays well-formed if and only if that case is not reached, or the walk is restarted out of
  it. For forced requests this has a closed form (`FitsForced`); allocator runs never reach the
  case (`Run`).
* **Page tables** (`PageTree`, `TableMemory`, `Tiling`, `Frames`, `Paging`, `X86Words`,
  `X86Ptm`, `RiscvWords`, `RiscvPtm`, `PageSizes`). Tables are pages of 512 words. The reference is an
  independent walker that decodes words as the hardware does (sections 4.5 and 4.6 of volume
  3A of the Intel Software Developer's Manual; sections 4.3.2 and 4.4 to 4.6 of the RISC-V
  Privileged Architecture, version 1.12), in numbers and not in the builder's constants,
  and restricts permissions at every level. A ghost
  tree of decoded entries carries the shape: no sharing, no cycles, upper entries at least as
  permissive as everything below. Both builders are proved to map exactly the range they are
  given, with the largest pages that fit around each address.
* **Clients** (`Hhdm`, `KernelLoader`, `PageDb`, `MapExport`, `Startup`). The direct map, the
  ELF segments, the page database and the exported memory map, each against the memory map
  and the tables it changes on the way, and then the whole sequence: what one of them has made
  is still there after the others.
* **Text** (`Digits`, `Printf`, `Formats`, `Printed`, `IsaString`). Formatted output of nanoprintf
  as it is configured here: integers against a numeral that is read back, format strings against
  a grammar whose directives are parsed back from their text, and what whole formats print told
  by their own characters; and the splitting of the RISC-V ISA string into one packed block.
* **The start barrier** (`StartBarrier`). Cores as interleaved atomic steps over the shared
  lock, counter, core count and entry point: safety on every run, progress, and the end of every
  fair run.

A panic of the original is an outcome that is not `ok`; what is promised holds on every run
that does not panic, and the contracts say what a panic is due to: a full array, no room for a
block, a large page in the way, or misaligned arguments. Two outcomes of the memory manager are
no panics, because there the original goes on with what lies behind the array: `PastEnd` of a
request and `Overrun` of a snapshot. The model stops at both, and callers report them as not
`ok`. When they occur is stated exactly on the map before the call for every allocation, every
free, every snapshot and every request that all entries in its way give way to; for a request
that some entry stands against, one direction is (`Set`).

Addresses wrap at 64 bits where the builders' cursors do; virtual addresses are compared modulo
the width of the tables.

## Findings

* A range laid over an entry with which it shares exactly one endpoint is not applied: the
  entry stays, and the map ends with two entries over one address (`OverlayWitness`).
* Merging is with the left or the right neighbour, never both: placing a request leaves two
  touching entries of one kind if and only if it fills a gap between two of its own kind
  (`PlacedTouches`, `UnclaimedTouches`, and `TouchingWitness` for an input).
* The test at `pre_kernel/src/memory/pmm.c:113` reads a slot that may be dead. It is harmless,
  because a dead slot is unused or describes addresses that are still described
  (`NoStaleNeighbour`). With all 1024 slots live it can read the slot behind the array; what it
  finds there decides between a merge and the panic of the insertion. For every request that
  all entries in its way give way to, so for all forced ones, the exact condition on the map
  before is `ReachesPast` (`Set`, `AllocAt`, `AllocExt`, `FreePages`); `ReadPastEnd` and
  `ClaimReadsPast` are inputs.
* A snapshot counts its slots before its own allocation, so it can hold one or two dead
  entries. They describe nothing new, but may carry an outdated kind: free memory that has been
  reported bad since is copied as free and swept into the direct map (`StaleSnapshot`,
  `StaleMapped`). A page with only bad memory is left alone if and only if no such copied entry
  reaches into it (`BadPageSwept`). Adding ranges that do not overlap leaves no such slot, and
  neither does any run of frees, and of allocations that are not for bad memory, after it
  (`Feed`, `Run`, `BadStaysOut`).
* With 1023 or 1024 slots live, a snapshot whose block could be claimed copies slots from
  behind the array (`CreateSnapshot`, and `SnapshotOverrun` for an input), and the direct map
  and the page database then sweep them.
* On RISC-V a mapping with no access at all builds an entry the hardware reads as a pointer to
  a table, and write-only permissions are reserved (`LeafFlagsExact`).
* In formatted output a precision with a minus sign counts as missing, but its number is kept
  and pads with zeros, unless it is no longer than the digits or absorbed by the zeros of the
  width (`MinusPrecision`, `MinusPrecisionChar`). The zero flag fills the fields of strings and
  characters (`ZeroFlagOnText`, `ZeroFlagOnChar`), and is not ignored beside a precision for
  binary numbers and pointers (`ZeroFlagBesidePrecision`).
* Base and extensions of the ISA string make up the string again if and only if it has an
  underscore behind its first character or begins with one (`RoundTripExact`). Its block is
  computed without the padding before the pointers and the last terminator, so it is overrun if
  and only if the rounding to whole pages leaves less than that (`UsedExact`).

## Model

| member | source | states |
|---|---|---|
| `MemoryMap.CoverAlone` | pre_kernel/src/memory/pmm.c:24-120 | An address inside one live entry of a well-formed map has exactly that entry's kind, so the array can be read as a function from addresses to kinds. |
| `MemoryMap.CoverTwice` | pre_kernel/src/memory/pmm.c:24-120 | Two entries over one address always show as a doubly described address; with `NotTidy`, a map where that happens is not well-formed. |
| `MapUpdate.UnforcedIsMaximum` | pre_kernel/src/memory/pmm.c:24-120 | An unforced request that fits leaves at every address of its range the kind of higher rank among the requested and the old one (the rank is the place in the declaration, `RankIsPlace`), and nothing else changes. |
| `MapUpdate.UnforcedCommute` | pre_kernel/src/memory/pmm.c:122-125 | Two unforced requests that fit in either order give the same view at every address. |
| `MapUpdate.RankInjective` | pre_kernel/include/memory/pmm.h:6-18 | Different kinds have different priorities, so the kind of higher rank is unique. |
| `MapUpdate.RequestPrevails` | pre_kernel/src/memory/pmm.c:24-120 | With the nine kinds in the order of their declaration, an unforced request of the j-th kind leaves over an address of the i-th the later of the two; a forced one, or one for an address nobody described, leaves its own; outside its range nothing changes. |
| `MapUpdate.RankIsPlace` | pre_kernel/include/memory/pmm.h:6-18 | A kind's priority is its place in that order. |
| `MapUpdate.StepApart` | pre_kernel/src/memory/pmm.c:25-31 | Walking past an entry the request does not meet keeps the walk's invariant, including the verdict whether the request fits. |
| `MapUpdate.StepCut` | pre_kernel/src/memory/pmm.c:49-85 | Trimming or deleting an overridden entry keeps the invariant: addresses outside the request keep their kind, blocks outside stay in one entry, and the verdict is unchanged. |
| `MapUpdate.StepNarrow` | pre_kernel/src/memory/pmm.c:58-76 | Shortening the request at an entry that stands keeps the invariant: what was given up is exactly what the entry keeps. |
| `MapUpdate.StepStuck` | pre_kernel/src/memory/pmm.c:80-103 | An entry inside the request that shares exactly one endpoint with it is matched by no branch; from there the request fits only if the next entry makes the walk restart on exactly that entry. |
| `MapUpdate.StandsWhole` | pre_kernel/src/memory/pmm.c:34-35 | Returning early at an entry that stands around all that is left is the complete result. |
| `MapUpdate.StepSplit` | pre_kernel/src/memory/pmm.c:34-47 | Splitting an entry and putting its tail back by a forced recursive request keeps the invariant and the kind of the tail. |
| `MapUpdate.StepHalves` | pre_kernel/src/memory/pmm.c:87-95 | The two recursive requests on both sides of an entry that stands together do what the whole request was to do, and fit exactly when it does, although the first may leave the map broken. |
| `MapUpdate.NothingLeft` | pre_kernel/src/memory/pmm.c:105 | A request that has shrunk to nothing has been carried out. |
| `MapUpdate.StepPlace` | pre_kernel/src/memory/pmm.c:107-119 | Growing the left neighbour, growing the right one or inserting carries the request out when it fits, and otherwise leaves two entries over one address. |
| `MapUpdate.PlacedTouches` | pre_kernel/src/memory/pmm.c:107-119 | On a map without touching entries of one kind, placing a request leaves two that touch if and only if it fills a gap between two entries of its own kind. |
| `MapUpdate.TouchingWitness` | pre_kernel/src/memory/pmm.c:109-117 | That at an input: a free page between two free pages. |
| `MapUpdate.PostEffect` | pre_kernel/src/memory/pmm.c:24-120 | The walk's result has the effect promised to callers: the map is well-formed exactly when the request fits, addresses outside are untouched, coverage never shrinks, blocks outside stay whole. |
| `Allocation.FitsForced` | pre_kernel/src/memory/pmm.c:33-103 | A forced request is carried out if and only if every entry inside it shares both endpoints with it or neither. |
| `Allocation.FitsScattered` | pre_kernel/src/memory/pmm.c:33-103 | Requests of any priority fit when the entries they meet do not touch one another and none shares an endpoint from inside. |
| `Allocation.FitsWithin` | pre_kernel/src/memory/pmm.c:127-160 | A request inside one entry always fits; every allocation and every whole-block free is of this kind. |
| `Allocation.FitsUnclaimed` | pre_kernel/src/memory/pmm.c:122-125 | A request for addresses nobody has described always fits. |
| `Allocation.OverlayWitness` | pre_kernel/src/memory/pmm.c:80-119 | A concrete failure: a reserved range over a shorter free one with the same start ends with two entries over one address. |
| `Pmm.NoStaleNeighbour` | pre_kernel/src/memory/pmm.c:113 | The slot behind the last live entry never starts where the request ends, so reading it at index `g_pmm_map_size` never merges into a dead slot. |
| `SlotTrace.TrackedTail` | pre_kernel/src/memory/pmm.c:34-47 | When everything gives way to a request, putting back the tail of a split entry looks behind the array if and only if the whole request does. |
| `SlotTrace.TrackedEnd` | pre_kernel/src/memory/pmm.c:107-113 | Coming to be placed, such a request looks behind the array if and only if a condition on the map before the call holds; any request does so only if nothing is described from its end on. |
| `SlotTrace.ShedDrop` | pre_kernel/src/memory/pmm.c:19-22 | What a deletion leaves in a dead slot is an entry the map had before the request, with its kind. |
| `SlotTrace.TrailSplit` | pre_kernel/src/memory/pmm.c:34-47 | Splitting and putting the tail back keeps all that is known of the last slot, the dead slots and the slots never written. |
| `SlotTrace.TrailHalves` | pre_kernel/src/memory/pmm.c:87-95 | So do the two recursive requests around an entry that stands. |
| `SlotTrace.UnclaimedTouches` | pre_kernel/src/memory/pmm.c:107-119 | Adding a range nobody has described to a map without touching entries of one kind leaves two that touch if and only if it fills a gap between two of its own kind. |
| `SlotTrace.NoneSpoiltKept` | pre_kernel/src/memory/pmm.c:24-120 | That no dead slot of another kind describes bad memory survives every request that is not for bad memory or meets nothing described. |
| `SlotTrace.CopySources` | pre_kernel/src/memory/pmm.c:163-177 | Entries copied after a claim that are not bad describe memory that was described and good, or come from slots that were dead before. |
| `Pmm.Pmm.MapInsert` | pre_kernel/src/memory/pmm.c:12-17 | Inserting shifts the tail by one slot, consumes one dead slot and changes nothing else; it fails exactly when all 1024 slots are live. |
| `Pmm.Pmm.MapDelete` | pre_kernel/src/memory/pmm.c:19-22 | Deleting closes the gap and leaves a copy of the last live entry in the freed slot. |
| `Pmm.Pmm.PlaceRest` | pre_kernel/src/memory/pmm.c:105-119 | Search for the place and merge left, merge right or insert, on the array with its dead slots. The slot behind the array is read if and only if all 1024 slots are live, the last entry starts at or below what is placed, and does not grow by it. |
| `Pmm.Pmm.SplitSlot` | pre_kernel/src/memory/pmm.c:34-47 | The split branch with its recursive call, on the array; the recursion is on a request that meets no entry. |
| `Pmm.Pmm.SetHalves` | pre_kernel/src/memory/pmm.c:80-96 | The two recursive calls around an entry that stands, on the array; both are on shorter requests. |
| `Pmm.Pmm.MapSet` | pre_kernel/src/memory/pmm.c:24-120 | The whole loop with its in-place trims, deletions, recursion and restarts terminates and has the promised effect on every well-formed map, and on the broken maps the second half may start from; what it does to the array besides is traced: what lands in dead slots, which slots are never written, and when the slot behind the array is read. |
| `Pmm.Pmm.Set` | pre_kernel/src/memory/pmm.c:24-120 | On a valid map: what `RequestPrevails` says of every address, validity if and only if the request fits, and failure only with the array full. When every entry the request meets gives way, as for every forced one, failure needs fewer than two unused slots before, and none at all unless the request is strictly inside an entry; and the slot behind the array is read if and only if `ReachesPast` holds of the map before: it is full, its last entry starts at or below the request, is not trimmed to one that grows by it, and is neither removed nor moved up. Other requests read it only if nothing is described from their end on, or an entry surrounds them. |
| `Pmm.Pmm.Add` | pre_kernel/src/memory/pmm.c:122-125 | As `Set` without force, so the later kind of the nine wins at every address; nothing at all happens for length zero. |
| `Pmm.Pmm.AllocAt` | pre_kernel/src/memory/pmm.c:127-137 | Finds a place if and only if one free entry encloses the block, and then exactly that block has the requested kind; it reads the slot behind the array if and only if `ReachesPast` holds of the block. |
| `Pmm.Pmm.FindFree` | pre_kernel/src/memory/pmm.c:141-148 | The search: the lowest aligned address whose block fits inside one free entry, or none exactly when no aligned address can hold the block. |
| `Pmm.Pmm.AllocExt` | pre_kernel/src/memory/pmm.c:139-152 | Returns the lowest aligned address whose block fits inside one free entry and claims it; reports lack of memory exactly when no aligned address can hold the block, and a read behind the array exactly when `ReachesPast` holds of the lowest place for the block. |
| `Pmm.Pmm.Alloc` | pre_kernel/src/memory/pmm.c:154-156 | The same for page alignment and the allocated kind. |
| `Pmm.Pmm.FreePages` | pre_kernel/src/memory/pmm.c:158-160 | Frees exactly the block, validly if and only if that request fits, and reads the slot behind the array if and only if `ReachesPast` holds of it. |
| `Pmm.Pmm.CreateSnapshot` | pre_kernel/src/memory/pmm.c:163-177 | Claims a block large enough for the copy at an address that is not zero, and copies the first slots of the array as they are after that claim, two more than were live before. Once the block is claimed, the copy runs past the array's end if and only if more than 1022 slots were live; the claim itself reads behind the array if and only if `ReachesPast` holds of it. |
| `Limits.SnapshotOverrun` | pre_kernel/src/memory/pmm.c:164-171 | The overrun at an input: a well-formed map of 1023 free blocks. |
| `Limits.ReadPastEnd` | pre_kernel/src/memory/pmm.c:107-113 | The read behind the array at an input: 1024 entries and a request above them. |
| `Limits.ClaimReadsPast` | pre_kernel/src/memory/pmm.c:34-47 | The same for a claim strictly inside the last free entry of a full map. |
| `Limits.StaleSnapshot` | pre_kernel/src/memory/pmm.c:19-22 | At an input: four free pages, bad memory reported over them and more free memory behind; a snapshot then copies one of the free pages, in whose place there is nothing but bad memory. |
| `Limits.StaleMapped` | pre_kernel/src/arch/x86_64/ptm.c:134-156 | A direct map swept from that snapshot maps the page. |
| `Pmm.SnapshotSlots` | pre_kernel/src/memory/pmm.c:164-171 | A snapshot begins with all live entries; whatever follows is unused or describes only addresses that live entries describe. |
| `Pmm.Pmm.FreeSnapshot` | pre_kernel/src/memory/pmm.c:179-181 | Frees exactly the snapshot's block. |
| `Pmm.Pmm.Run` | pre_kernel/src/memory/pmm.c:127-160 | After any run of allocations and whole-block frees the map is the initial one with the outstanding blocks laid over it: disjoint, each in one entry of its kind; no request of the run ever reaches the unmatched case, the run stops early only with the array full or no place for a block, and unless it claims memory as bad, dead slots of another kind still describe no bad memory. |
| `Pmm.Pmm.RunOne` | pre_kernel/src/memory/pmm.c:127-160 | One operation of such a run. |
| `Allocation.LedgerClaim` | pre_kernel/src/memory/pmm.c:139-152 | Claiming a free block extends the ledger of outstanding blocks. |
| `Allocation.LedgerFits` | pre_kernel/src/memory/pmm.c:158-160 | Every outstanding block can be freed as a whole, at any time. |
| `Allocation.LedgerRelease` | pre_kernel/src/memory/pmm.c:158-160 | Freeing a whole block takes it out of the ledger, leaving the others intact. |
| `Allocation.LedgerTotal` | pre_kernel/src/memory/pmm.c:127-160 | The total described length is conserved by every run. |
| `Allocation.TotalIsDescribed` | pre_kernel/src/memory/pmm.c:24-120 | The lengths of a well-formed map's entries add up to the number of addresses described. |
| `Allocation.TotalConserved` | pre_kernel/src/memory/pmm.c:24-120 | A single request for described addresses conserves the total length. |
| `Allocation.LedgerEmpty` | pre_kernel/src/memory/pmm.c:158-160 | When everything has been freed, every address has the kind it started with. |
| `Allocation.CeilLeast` | pre_kernel/include/lib/math.h:3-4 | Rounding up by dividing gives the least multiple that is not below, for any positive alignment. |
| `Pmm.LowestFound` | pre_kernel/src/memory/pmm.c:141-148 | The first entry with room holds the lowest aligned address of all entries with room. |
| `Pmm.Pmm.Feed` | pre_kernel/src/boot/limine.c:94-110 | Ranges, overlapping or not, are added up to the first that does not fit the map as it is then; the map describes exactly those added, every address with the last kind, in the order of the nine, among the ranges over it. Ranges that do not overlap are all added, and leave no dead slot of another kind over bad memory. |
| `Allocation.UnmixedUnclaimed` | pre_kernel/src/boot/limine.c:94-110 | Among ranges that do not overlap each fits, in any order. |
| `Allocation.FedOrder` | pre_kernel/src/boot/limine.c:94-110 | The order in which ranges are added, overlapping or not, makes no difference to any address. |
| `Allocation.FedLatest` | pre_kernel/src/boot/limine.c:94-110 | No range over an address is of a kind that comes later in the order of the nine kinds than what the address has become. |
| `PageTree.NoTableShared` | pre_kernel/src/arch/x86_64/ptm.c:61-79 | No two entries refer to the same table, and tables lie strictly below the tables that refer to them. |
| `PageTree.WalkIsTranslate` | pre_kernel/src/arch/x86_64/ptm.c:61-94 | With the invariant of the builder, what the upper entries grant never restricts a leaf: the effective permission is the leaf's own. |
| `PageTree.SamePath` | pre_kernel/src/arch/x86_64/ptm.c:61-79 | Two addresses come through the same table exactly when they agree in all indices above it. |
| `PageTree.LeafWritten` | pre_kernel/src/arch/x86_64/ptm.c:81-94 | Writing a leaf changes the translation of exactly the addresses that share all indices with it. |
| `PageTree.Widened` | pre_kernel/src/arch/x86_64/ptm.c:71-76 | Opening up an upper entry changes no translation. |
| `PageTree.HungTranslate` | pre_kernel/src/arch/x86_64/ptm.c:65-76 | Entering a new zeroed table changes no translation. |
| `PageTree.PutShape` | pre_kernel/src/arch/x86_64/ptm.c:61-94 | Replacing an entry keeps the tree shape and the permission invariant, if upper entries grant what the new one does. |
| `PageTree.AgreePage` | pre_kernel/src/arch/x86_64/ptm.c:23 | Agreeing in the indices from a level up is being in the same page of that level, within the width of the tables. |
| `PageTree.PageIsRange` | pre_kernel/src/arch/x86_64/ptm.c:102-111 | The page of an aligned address is the range of its size that starts there, going round at the width. |
| `PageTree.RangeStep` | pre_kernel/src/arch/x86_64/ptm.c:102-111 | Mapping the next page of any size extends the mapped range by exactly that page. |
| `PageTree.RangeJoin` | pre_kernel/src/loader/elfldr.c:105-111 | Mapping a range and then the one behind it is mapping both together. |
| `PageTree.TranslatePeriodic` | pre_kernel/src/arch/x86_64/ptm.c:23 | Addresses a width apart translate alike, so nothing longer than the width can be mapped. |
| `TableMemory.HardwareIsTranslate` | pre_kernel/src/arch/x86_64/ptm.c:52-95 | The processor's walk over the words in memory, restricting permissions at every level, finds what the tree says and grants what the leaf grants. |
| `TableMemory.EncodedPut` | pre_kernel/src/arch/x86_64/ptm.c:76-94 | Writing one word of a table page changes one entry of the tree. |
| `X86Words.DecodeEncode` | pre_kernel/src/arch/x86_64/ptm.c:13-21 | A processor, by bit weights written out in numbers, reads every word the builder writes as the entry it was built for, for all three page sizes and table entries; one without NX or 1 GiB pages, which takes their bits for reserved, does so as well, because the builder then writes neither. |
| `X86Words.FinalIs` | pre_kernel/src/arch/x86_64/ptm.c:52-95 | For every address the tree translates, a walk over the words in memory, in numbers throughout, ends at an entry with bit 0, with bit 1 exactly for writing, bit 7 exactly for a large page, bit 63 exactly against execution, and with the address. |
| `X86Words.MaskIs` | pre_kernel/src/arch/x86_64/ptm.c:19-21 | The three address masks keep an address modulo 2^51 when it is aligned to the page size. |
| `X86Ptm.NewEntryIs` | pre_kernel/src/arch/x86_64/ptm.c:68-74 | The word for a new table is a table entry with exactly the wanted permissions, and its address is read back from it. |
| `X86Ptm.OpenedEntryIs` | pre_kernel/src/arch/x86_64/ptm.c:71-78 | Clearing NX and setting RW makes an existing table entry grant what it did and what is wanted, and keeps its address. |
| `X86Ptm.PageEntryIs` | pre_kernel/src/arch/x86_64/ptm.c:90-94 | The word for a page holds exactly its address, size and permissions. |
| `X86Ptm.Ptm.Init` | pre_kernel/src/arch/x86_64/ptm.c:29-49 | After initialisation the tables translate nothing. |
| `X86Ptm.Ptm.NewTable` | pre_kernel/src/arch/x86_64/ptm.c:66-67 | A table's page is zeroed, was free, is none of the tables in use, and is the only thing that is claimed. |
| `X86Ptm.Ptm.MapPage` | pre_kernel/src/arch/x86_64/ptm.c:52-95 | One page of the given size is mapped with exactly the wanted permissions, every other address translates as before, and the tables keep their shape and homes. |
| `X86Ptm.Ptm.Descend` | pre_kernel/src/arch/x86_64/ptm.c:61-79 | One level of the walk changes no translation. |
| `X86Ptm.Ptm.Map` | pre_kernel/src/arch/x86_64/ptm.c:97-112 | The processor sends every address of the range to its target plus its offset with the wanted permissions, and every other address where it went before, for 4 and 5 levels and any mix of page sizes. The last entry for every address of the range has bit 0, bit 1 if and only if writing is asked for, bit 7 if and only if the page is large, bit 63 if and only if NX is supported and execution is not asked for, and it is that of the largest page that lies inside the range around the address; nothing but free pages for tables is taken from the memory manager. It panics only when misaligned, without memory for a table, or at a large page in the range. |
| `X86Ptm.RangeStamped` | pre_kernel/src/arch/x86_64/ptm.c:90-94 | The bits of the last entry for every address of a mapped range. |
| `X86Ptm.DirectStamped` | pre_kernel/src/arch/x86_64/ptm.c:147-155 | The bits of the last entry for every good address of the direct map. |
| `PageSizes.NotReached` | pre_kernel/src/arch/x86_64/ptm.c:102-111 | A larger block that cannot be mapped where the cursor is does not reach into the page that is mapped there, and can only begin where that page ends. |
| `PageSizes.ChosenIsLargest` | pre_kernel/src/arch/x86_64/ptm.c:103-105 | The greedy choice takes, for every address of the page, the largest page around it that lies inside the range and whose target is aligned alike. |
| `PageSizes.SizedStep` | pre_kernel/src/arch/x86_64/ptm.c:102-111 | Mapping the chosen page keeps that for all addresses mapped so far, on the tables. |
| `X86Ptm.PageMapped` | pre_kernel/src/arch/x86_64/ptm.c:102-111 | The 64-bit cursors, which wrap around, stay in step with the range. |
| `X86Ptm.Ptm.CreateHhdmMappings` | pre_kernel/src/arch/x86_64/ptm.c:131-159 | Every described address that is not bad translates from the offset plus itself to itself, by an entry that allows writing and, where NX is supported, forbids execution; pages without memory keep their translation; a page with only bad memory keeps it if and only if no copied dead entry of another kind reaches into it, so always where no dead slot of another kind describes bad memory. The memory map's own contents are kept, although it changes during the sweep, and tables come out of memory that was free. Not `ok` is due to a misaligned offset, lack of memory or slots, a large page in the way, or the snapshot's overrun. |
| `X86Ptm.Ptm.Sweep` | pre_kernel/src/arch/x86_64/ptm.c:134-156 | The sweep maps exactly the pages the snapshot's entries reach into. |
| `Hhdm.SweepStep` | pre_kernel/src/arch/x86_64/ptm.c:147-155 | One entry of the sweep adds exactly its pages. |
| `Hhdm.SweepDone` | pre_kernel/src/arch/x86_64/ptm.c:134-156 | Sweeping a snapshot, dead entries included, maps all described memory and no page without memory. |
| `Hhdm.BadPageSwept` | pre_kernel/src/arch/x86_64/ptm.c:134-156 | A page with only bad memory is swept if and only if a copied entry from a dead slot, of another kind, reaches into it. |
| `Hhdm.SweepSkipsBad` | pre_kernel/src/arch/x86_64/ptm.c:134-156 | So pages with only bad memory keep their translation exactly but for those. |
| `Hhdm.BadStaysOut` | pre_kernel/src/arch/x86_64/ptm.c:134-156 | And all of them do, where no dead slot of another kind describes bad memory. |
| `Hhdm.DirectlyMappedBefore` | pre_kernel/src/arch/x86_64/ptm.c:132 | Claiming the snapshot before the sweep makes no difference to what is promised about the map before. |
| `Hhdm.SnapshotReleasable` | pre_kernel/src/arch/x86_64/ptm.c:158 | After the sweep the snapshot's block can be released, and no table lies in it. |
| `Frames.BlockClaimed` | pre_kernel/src/memory/pmm.c:139-152 | What any claim does: only the block changes, it was free, it ends in one entry, and nothing else loses its entry. |
| `Frames.HeldApart` | pre_kernel/src/memory/pmm.c:139-152 | A block that is not free shares no address with one that can be claimed. |
| `Frames.GrownThrough` | pre_kernel/src/memory/pmm.c:163-181 | Claiming a snapshot, building tables meanwhile and releasing it keeps everything that was not free, and the tables lie in memory that was free before. |
| `Paging.TableClaimed` | pre_kernel/src/arch/x86_64/ptm.c:66-67 | A page claimed for a table is none of the tables there are, and nothing else is claimed. |
| `Paging.SnapshotReturned` | pre_kernel/src/memory/pmm.c:179-181 | With the snapshot's block released again, the tables built meanwhile are all that is gone from free memory, and all tables are still in place. |
| `Paging.StepNew` | pre_kernel/src/arch/x86_64/ptm.c:65-76 | The walk's step into a new table keeps shape, words in memory and all translations. |
| `Paging.StepOld` | pre_kernel/src/arch/x86_64/ptm.c:70-78 | The walk's step into an existing table, whose entry is opened up, keeps them as well. |
| `Paging.StepLeaf` | pre_kernel/src/arch/x86_64/ptm.c:81-94 | The last step maps exactly one page. |
| `Paging.HardwareMaps` | pre_kernel/src/arch/x86_64/ptm.c:97-112 | A mapped range seen by the processor, on memory before and after. |
| `RiscvWords.DecodeEncode` | pre_kernel/src/arch/riscv64/ptm.c:24-25 | The hardware, by bit weights written out in numbers, reads every built entry as what it was built for; page-aligned addresses below 2^56 survive the way into an entry and back. |
| `RiscvWords.FinalIs` | pre_kernel/src/arch/riscv64/ptm.c:43-71 | For every address the tree translates, a walk over the words in memory, in numbers throughout, ends at a valid entry with bits 1, 2 and 3 exactly for reading, writing and execution, no reserved bit, and the address. |
| `RiscvWords.LeafFlagsExact` | pre_kernel/src/arch/riscv64/ptm.c:46-49 | A page's entry is read back as that page if and only if some of reading and executing is allowed and writing implies reading; with no access at all it is read as a pointer to a table. |
| `RiscvPtm.ChooseTargetLevel` | pre_kernel/src/arch/riscv64/ptm.c:73-79 | The chosen page is aligned on both sides, fits into what remains, and is the largest such of at most three levels. |
| `RiscvPtm.Ptm.Init` | pre_kernel/src/arch/riscv64/ptm.c:81-90 | After initialisation the tables translate nothing, for 3, 4 and 5 levels. |
| `RiscvPtm.Ptm.NewTable` | pre_kernel/src/arch/riscv64/ptm.c:58-59 | A table's page is zeroed, was free and is none of the tables in use. |
| `RiscvPtm.Ptm.MapPage` | pre_kernel/src/arch/riscv64/ptm.c:43-71 | One page of the target level is mapped with the wanted permissions and every other address translates as before; it panics for a level that does not exist, without memory, and on walking into a leaf. |
| `RiscvPtm.Ptm.Descend` | pre_kernel/src/arch/riscv64/ptm.c:53-67 | One level of the walk, through a new or an existing table, changes no translation. |
| `RiscvPtm.Ptm.Map` | pre_kernel/src/arch/riscv64/ptm.c:92-104 | The hardware sends every address of the range to its target plus its offset and every other address where it went before, for Sv39, Sv48 and Sv57; the last entry for every address of the range has bits 1, 2 and 3 exactly as asked for, and is that of the largest page, of at most 1 GiB, that lies inside the range around it; the loop ends exactly at the length, and panics have the same reasons as on x86-64. |
| `RiscvPtm.RangeStamped` | pre_kernel/src/arch/riscv64/ptm.c:43-71 | The bits of the last entry for every address of a mapped range. |
| `RiscvPtm.DirectStamped` | pre_kernel/src/arch/riscv64/ptm.c:123-135 | The bits of the last entry for every good address of the direct map. |
| `RiscvPtm.PageSized` | pre_kernel/src/arch/riscv64/ptm.c:73-103 | The level that is chosen is that of the largest page there can be around each of its addresses. |
| `RiscvPtm.PageMapped` | pre_kernel/src/arch/riscv64/ptm.c:96-103 | The greedily chosen pages tile the range, with cursors that wrap at 64 bits. |
| `RiscvPtm.Ptm.CreateHhdmMappings` | pre_kernel/src/arch/riscv64/ptm.c:120-138 | The direct map as on x86-64, readable and writable. |
| `RiscvPtm.Ptm.Sweep` | pre_kernel/src/arch/riscv64/ptm.c:123-135 | The sweep maps exactly the pages the snapshot's entries reach into. |
| `Tiling.TilesMapRange` | pre_kernel/src/arch/riscv64/ptm.c:92-104 | Any tiling of a range by aligned pages of any sizes maps exactly that range. |
| `Tiling.LargeIsPageByPage` | pre_kernel/src/arch/riscv64/ptm.c:92-104 | A range mapped with superpages translates every address as if each 4 KiB page had been mapped at level 1. |
| `KernelLoader.Loader.HandlePtLoad` | pre_kernel/src/loader/elfldr.c:95-129 | One segment is claimed, mapped page by page, zeroed, filled and recorded; the segments loaded before keep their mappings, memory, contents and records. The new record names the header's address and size, and its bits 0, 1 and 2 are bits 2, 1 and 0 of the header's flags. |
| `KernelLoader.Loader.ClaimBlock` | pre_kernel/src/loader/elfldr.c:102-103 | The segment's block is apart from all earlier segments and from all page tables. |
| `KernelLoader.Loader.MapBlock` | pre_kernel/src/loader/elfldr.c:105-111 | Mapping page by page maps the whole block, and the tables built meanwhile stay out of every segment. |
| `KernelLoader.FilledNext` | pre_kernel/src/loader/elfldr.c:113-114 | Zeroing the pages and copying the file part gives the promised contents and disturbs no earlier segment. |
| `KernelLoader.KernelReads` | pre_kernel/src/loader/elfldr.c:95-129 | Byte `k` of a segment, read through the tables, is at the recorded address plus `k`, can be read, can be written if and only if bit 1 of the header's flags is set, can be executed if and only if bit 0 is set or NX is missing, and is the file's byte or zero behind the file part, unless a later segment has a page there. |
| `KernelLoader.KernelReadsAll` | pre_kernel/src/loader/elfldr.c:149-154 | With no page shared, that holds for every byte of every segment. |
| `KernelLoader.PlacedByNone` | pre_kernel/src/loader/elfldr.c:149-154 | Addresses outside all segments translate as before loading. |
| `KernelLoader.Loader.LoadImage` | pre_kernel/src/loader/elfldr.c:131-154 | All loadable headers are loaded in file order; every record describes its header; the record array, sized by the first pass, is never overrun and lies in an allocated block; `kernel_base` is the lowest virtual address. |
| `KernelLoader.Loader.Record` | pre_kernel/src/loader/elfldr.c:116-122 | The record is appended and `kernel_base` lowered. |
| `KernelLoader.RecordedDescribes` | pre_kernel/src/loader/elfldr.c:95-122 | A record names its segment's addresses and has one bit each for reading, writing and execution, each from its own bit of the header's flags. |
| `KernelLoader.Loader.ClaimRecords` | pre_kernel/src/loader/elfldr.c:139 | The block for the records is allocated and has 25 bytes for each. |
| `KernelLoader.CountLoads` | pre_kernel/src/loader/elfldr.c:134-137 | The first pass counts exactly the headers the second pass loads. |
| `KernelLoader.Loader.FindInfo` | pre_kernel/src/loader/elfldr.c:170-176 | An address is found if and only if some segment contains it; its physical address, by the first such segment, is the one the tables translate it to if and only if no later segment has a page there. |
| `KernelLoader.BackingGrown` | pre_kernel/src/loader/elfldr.c:105-111 | Tables built out of free memory stay out of every segment's block. |
| `PageDb.Setup` | pre_kernel/src/memory/pagedb.c:11-52 | The array lies behind the direct map and ends below the kernel's first page; every page of it that is mapped has a frame of its own that was free and is for records of good memory, or of an entry that a dead slot held; the record of every good page frame is mapped; no other address changes; and the tables built meanwhile come out of memory that was free before. |
| `PageDb.SupplyAll` | pre_kernel/src/memory/pagedb.c:25-48 | The sweep over the snapshot, dead entries included, maps every page any entry needs. |
| `PageDb.SupplyEntry` | pre_kernel/src/memory/pagedb.c:39-47 | Clipping at `pagedb_mapped_end` skips exactly the pages that are there already. |
| `PageDb.SupplyRange` | pre_kernel/src/memory/pagedb.c:46 | The inner loop adds exactly the pages from start to end. |
| `PageDb.SupplyNext` | pre_kernel/src/memory/pagedb.c:39-47 | The step of the sweep: entries in order share at most one page, so nothing below the top is missing. |
| `PageDb.WantingNext` | pre_kernel/src/memory/pagedb.c:35-47 | No page is added but those the entry needs, and entries of bad memory add none. |
| `PageDb.PagesForGood` | pre_kernel/src/memory/pagedb.c:25-48 | Where no dead slot of another kind describes bad memory, every page of the array is for records of good memory. |
| `PageDb.PagesInOrder` | pre_kernel/src/memory/pagedb.c:39-42 | An entry needs pages from the last page of its predecessors on. |
| `PageDb.RecordInside` | pre_kernel/src/memory/pagedb.c:39-40 | Flooring the start and ceiling the end covers every byte of every record between. |
| `PageDb.RecordReadable` | pre_kernel/src/memory/pagedb.c:11-52 | A byte of a good frame's record is found at its place in the array. |
| `PageDb.RecordsBefore` | pre_kernel/src/memory/pagedb.c:23 | Taking the snapshot splits no page frame, so frames are judged by the map as it was before. |
| `PageDb.ArrayNext` | pre_kernel/src/memory/pagedb.c:46 | Mapping one page of the array changes that page only. |
| `PageDb.DirectMapSize` | pre_kernel/src/init.c:76-78 | The direct map's size is the larger of the given one and the end of memory. |
| `MapExport.ClaimTable` | pre_kernel/src/init.c:96-109 | Doubling ends, with a block large enough for the live map that by then contains it; every block that was too small has been given back. |
| `MapExport.ClaimOnce` | pre_kernel/src/init.c:98-106 | One attempt of the search. |
| `MapExport.ExportMemoryMap` | pre_kernel/src/init.c:111-131 | The table, of 24 bytes an entry inside the block, tells of every address a kind that says exactly which kinds the final map may have there, and the same of the map before, except for its own block. |
| `MapExport.ToldIsCover` | pre_kernel/src/init.c:113-131 | Entry by entry translation is translation at every address. |
| `MapExport.HandedTells` | pre_kernel/src/init.c:113-131 | Usable is told if and only if an address is free or reclaimable from the boot loader or from EFI, reclaimable if and only if it is allocated, and each of the other five if and only if the address is of the one kind that it stands for. |
| `MapExport.TableIsNotUsable` | pre_kernel/src/init.c:96-131 | The kernel is told that it may use an address if and only if that was free or reclaimable from the boot loader or from EFI and is not in the table. |
| `StartBarrier.NobodyEntersEarly` | pre_kernel/src/init.c:27-43 | On every interleaving of any number of cores, a core is handed off only after every core has been set up and has arrived, and only to the kernel's entry point. |
| `StartBarrier.StepSound` | pre_kernel/src/init.c:27-43 | Every atomic step of every core keeps the invariant of the barrier, with the 32-bit count of running cores. |
| `StartBarrier.SomebodyMoves` | pre_kernel/src/init.c:27-43 | Unless all cores are in the kernel, some core can take a step that does not spin. |
| `StartBarrier.StepProgress` | pre_kernel/src/init.c:27-43 | Every step that does not spin decreases what is left by one; spinning changes nothing. |
| `StartBarrier.CanFinish` | pre_kernel/src/init.c:27-43 | From every reachable state all cores can get into the kernel, in as many steps as are left. |
| `StartBarrier.MovesBounded` | pre_kernel/src/init.c:27-43 | On every schedule, steps taken that did not spin and steps left add up to a constant. |
| `StartBarrier.RoundMoves` | pre_kernel/src/init.c:27-43 | In every round that names each core, in any order, some core takes a step that does not spin, until all are in the kernel. |
| `StartBarrier.FairFinish` | pre_kernel/src/init.c:27-43 | On every fair schedule all cores are in the kernel, at its entry point, after five rounds for every core and two more. |
| `Startup.Prepare` | pre_kernel/src/init.c:50-94 | The sequence as a whole: after loading the kernel, mapping the page database and mapping all memory, each of the three is still in place, on one memory map and in one set of tables; at the end no page table, whenever it was built, shares an address with a segment's block, and these blocks are still allocated and apart. |
| `Startup.KernelSurvives` | pre_kernel/src/init.c:82-93 | Every byte of the kernel image still translates to its place after the page database and the direct map have been mapped. |
| `Startup.ArraySurvives` | pre_kernel/src/init.c:93 | The direct map leaves the page database mapped. |
| `Startup.EverythingMapped` | pre_kernel/src/init.c:76-93 | Kernel, page database and direct map together, for the memory there was when the kernel had been loaded. |
| `Startup.MapAll` | pre_kernel/src/init.c:76-93 | The sequence from the loaded kernel on; the tables it builds come out of memory that was free when it began, so out of no segment's block. |
| `Startup.LoadKernel` | pre_kernel/src/loader/elfldr.c:187-203 | Loading by itself: readable segments in allocated blocks that are apart from one another and from all page tables. |
| `Startup.HandOver` | pre_kernel/src/init.c:96-131 | The exported map tells the kernel that its image is reclaimable only by itself and that the page database is in use; the table it is written into shares no address with a segment, a page of the page database or a page table, and the tables are still in place. |
| `Startup.TableElsewhere` | pre_kernel/src/init.c:96-131 | What the export claims was free, so it is in nothing that was made before. |
| `Startup.TableTells` | pre_kernel/src/init.c:111-131 | No memory of the image or of the page database is ever offered as usable. |
| `Digits.ReadBack` | pre_kernel/include/nanoprintf/nanoprintf.h:546-555 | Digits written in a base read back as the value in that base, in either case. |
| `Digits.DigitTable` | pre_kernel/include/nanoprintf/nanoprintf.h:546-555 | The sixteen digits, in both cases. |
| `Digits.NumeralLetters` | pre_kernel/include/nanoprintf/nanoprintf.h:546-555 | A numeral has digits of the case asked for only. |
| `Digits.NoLeadingZero` | pre_kernel/include/nanoprintf/nanoprintf.h:546-555 | No value but zero starts with a zero. |
| `Digits.NumeralAt` | pre_kernel/include/nanoprintf/nanoprintf.h:1349-1351 | Each digit is a quotient by a power of the base, so shifting binary values gives the same digits. |
| `Printf.UtoaRev` | pre_kernel/include/nanoprintf/nanoprintf.h:546-555 | The digits of a 64-bit value are written last one first into the buffer; at most 22 of its 23 bytes are used. |
| `Printf.BinLen` | pre_kernel/include/nanoprintf/nanoprintf.h:884-921 | The number of binary digits. |
| `Printf.FieldLength` | pre_kernel/include/nanoprintf/nanoprintf.h:1267-1293 | An integer's field is as long as the larger of the width and the sign plus the larger of the precision and the digits. |
| `Printf.FieldReadsBack` | pre_kernel/include/nanoprintf/nanoprintf.h:1069-1367 | For every value, the lowest included, and every flag, width and precision the field reads back as the value. |
| `Printf.DigitsAre` | pre_kernel/include/nanoprintf/nanoprintf.h:1069-1160 | There are no digits if and only if a zero has a precision of zero; otherwise they read back as the number, start with a zero for zero alone, and are of the case asked for. |
| `Printf.SignPrinted` | pre_kernel/include/nanoprintf/nanoprintf.h:1087 | A minus is printed if and only if the number is negative, and a plus or a space exactly where it is asked for before another number of the signed conversion. |
| `Printf.FillAt` | pre_kernel/include/nanoprintf/nanoprintf.h:1249-1265 | What fills a field: spaces behind it, zeros behind its sign, or spaces before it, by the two flags. |
| `Printf.Convert` | pre_kernel/include/nanoprintf/nanoprintf.h:1069-1160 | The magnitude is converted, also of the lowest value; zero with precision zero has no digits. |
| `Printf.PutInteger` | pre_kernel/include/nanoprintf/nanoprintf.h:1069-1367 | What is emitted is exactly the field: padding, sign and digits in their order. |
| `Printf.UnwantedPrecision` | pre_kernel/include/nanoprintf/nanoprintf.h:1278-1293 | The number kept for a precision that does not count shows in the field, unless it is no longer than the digits or its zeros are among those that fill the width. |
| `Printf.ZeroFlagBesidePrecision` | pre_kernel/include/nanoprintf/nanoprintf.h:1017-1028 | Beside a precision the zero flag is without effect if and only if the conversion is one of the four it is cleared for, there is nothing to print, or there is no width left to fill. |
| `Printf.PutText` | pre_kernel/include/nanoprintf/nanoprintf.h:1060-1067 | What is emitted for a string is its field: at most the precision's characters, padded to the width. |
| `Printf.TextFieldLength` | pre_kernel/include/nanoprintf/nanoprintf.h:1060-1067 | A string's field is as long as the width or as what is shown of the string. |
| `Printf.TextFieldAt` | pre_kernel/include/nanoprintf/nanoprintf.h:1060-1067 | The characters of a string's field: the first ones of the string, as many as the precision allows, at the side asked for, and spaces or zeros elsewhere. |
| `Printf.ZeroFlagOnText` | pre_kernel/include/nanoprintf/nanoprintf.h:1249-1265 | The zero flag fills a string's field with zeros if and only if there is a width left to fill and nothing asks for the left. |
| `Printf.CharFieldLength` | pre_kernel/include/nanoprintf/nanoprintf.h:1050-1058 | A character's field is as long as its width or its precision, which is taken for one of digits. |
| `Printf.CharFieldAt` | pre_kernel/include/nanoprintf/nanoprintf.h:1050-1058 | The characters of a character's field that is at least as wide as its precision: zeros and the character, with spaces behind them, or spaces or zeros before. |
| `Printf.CharPrecision` | pre_kernel/include/nanoprintf/nanoprintf.h:1278-1293 | The precision of a character shows, unless it is at most one or its zeros are among those that fill the width. |
| `Printf.ZeroFlagOnChar` | pre_kernel/include/nanoprintf/nanoprintf.h:1249-1265 | The zero flag fills a character's field with zeros if and only if there is a width left to fill and nothing asks for the left. |
| `Printf.Sink.Put` | pre_kernel/include/nanoprintf/nanoprintf.h:924-946 | Every character is counted and appended; it is stored while there is room. |
| `Formats.RoundTrip` | pre_kernel/include/nanoprintf/nanoprintf.h:392-544 | Every directive, with any flags, width, precision, modifier and conversion, is parsed back from its text, whatever follows. |
| `Formats.ParseFormatSpec` | pre_kernel/include/nanoprintf/nanoprintf.h:392-544 | The parser finds the directive the grammar gives, and where it ends, or refuses exactly when the grammar does. |
| `Formats.ParseFlags` | pre_kernel/include/nanoprintf/nanoprintf.h:405-423 | The loop over the flags takes exactly the flags. |
| `Formats.ParseWidth` | pre_kernel/include/nanoprintf/nanoprintf.h:426-437 | The width is missing, a number, or left to an argument. |
| `Formats.ParsePrecision` | pre_kernel/include/nanoprintf/nanoprintf.h:439-459 | The same for the precision; behind a minus sign the number is kept, but counts as missing. |
| `Formats.ParseModifier` | pre_kernel/include/nanoprintf/nanoprintf.h:460-489 | One or two letters of length, or none. |
| `Formats.MinusPrecision` | pre_kernel/include/nanoprintf/nanoprintf.h:442-457 | A directive with a minus sign before its precision is parsed with that number and without a precision, and prints as if the number were not there if and only if it is no longer than the digits or absorbed by the zeros of the width. |
| `Formats.MinusPrecisionChar` | pre_kernel/include/nanoprintf/nanoprintf.h:442-457 | The same for characters and the percent sign. |
| `Formats.Cast` | pre_kernel/include/nanoprintf/nanoprintf.h:1069-1134 | An argument is reduced to a value of the conversion's range that is congruent to it. |
| `Printed.CastIs` | pre_kernel/include/nanoprintf/nanoprintf.h:1069-1134 | That value is the only one of the modifier's type, of 8, 16, 32 or 64 bits, that is congruent to the argument modulo that power of two, and is the argument itself where it is of that type. |
| `Printed.DirectivePrints` | pre_kernel/include/nanoprintf/nanoprintf.h:959-1371 | What a directive prints for a number, with any flags, width and precision, scans back in base 2, 8, 10 or 16 to the number converted to its type. |
| `Printed.LetterPrints` | pre_kernel/include/nanoprintf/nanoprintf.h:460-508 | For every modifier and conversion character by itself: the size and sign of its type, its base, the case of its letters, sixteen digits for a pointer, no other leading zero, and nothing else. |
| `Printed.SignsAskedFor` | pre_kernel/include/nanoprintf/nanoprintf.h:415-421 | Plus and space, in any order, put that sign before a number that has none; the plus beats the space. |
| `Printed.TextPrints` | pre_kernel/include/nanoprintf/nanoprintf.h:967-972 | Text without a percent sign is printed as it stands. |
| `Printed.StrayPercent` | pre_kernel/include/nanoprintf/nanoprintf.h:967-972 | A percent sign without a directive is printed. |
| `Printed.DirectiveThenRest` | pre_kernel/include/nanoprintf/nanoprintf.h:967-973 | A directive prints its field, and the format goes on behind it with the arguments it leaves. |
| `Printed.WidthArgument` | pre_kernel/include/nanoprintf/nanoprintf.h:975-983 | A width from an argument is as one written down; a negative one also justifies to the left. |
| `Printed.PrecisionArgument` | pre_kernel/include/nanoprintf/nanoprintf.h:985-992 | A precision from an argument is as one written down; a negative one is none. |
| `Printed.TextDirectives` | pre_kernel/include/nanoprintf/nanoprintf.h:1049-1067 | A string and a character are printed as they are, and two percent signs print one. |
| `Formats.PutDirective` | pre_kernel/include/nanoprintf/nanoprintf.h:975-994 | Width and precision come from the arguments first, a negative width justifies to the left, a negative precision is none; then what is emitted is the field of the conversion. |
| `Formats.Vpprintf` | pre_kernel/include/nanoprintf/nanoprintf.h:959-1371 | The whole format: literal characters and unparsable percent signs are copied, directives take their arguments in order; the returned count is the number of characters emitted. |
| `Formats.Vsnprintf` | pre_kernel/include/nanoprintf/nanoprintf.h:1377-1395 | The buffer gets the terminated prefix that fits, the count is that of the whole text (section 7.21.6.12 of ISO C11), and without a buffer only the count is made. |
| `IsaString.RoundTripExact` | pre_kernel/src/arch/riscv64/isa.c:8-62 | Base and extensions joined by underscores are the string again, up to one underscore at its end, if and only if there is an underscore behind the first character or the string begins with one. |
| `IsaString.NoUnderscore` | pre_kernel/src/arch/riscv64/isa.c:10-37 | Otherwise there is no underscore at all, the base is empty and the first character is lost. |
| `IsaString.Measure` | pre_kernel/src/arch/riscv64/isa.c:12-15 | The first pass finds the first underscore behind the first character, and counts all. |
| `IsaString.StoreParts` | pre_kernel/src/arch/riscv64/isa.c:36-57 | The second pass stores every extension once, terminated, in order, without overlap. |
| `IsaString.ParseIsaString` | pre_kernel/src/arch/riscv64/isa.c:8-62 | Base and extensions are in the block, behind one another and behind the pointers, for every string whose block is large enough by `UsedExact`; the pointer array is never overrun. |
| `IsaString.UsedExact` | pre_kernel/src/arch/riscv64/isa.c:17-34 | The bytes used are those asked for and the padding before the pointers, one less when the last part is empty; they fit the block if and only if the rounding to whole pages takes that up. |
| `IsaString.PackedLength` | pre_kernel/src/arch/riscv64/isa.c:36-57 | The extensions take as many bytes as the text behind the base, and one more when it does not end with an underscore. |
| `IsaString.OneLetterOverruns` | pre_kernel/src/arch/riscv64/isa.c:17-34 | For a base of one letter and one extension the block is overrun if and only if fewer than six bytes are left by the rounding; with 4079 characters 4102 bytes of 4096 are used. |

## Left out

- Address overflow in the memory map: ranges end below 2^64; a wrapped `base + length` in `pmm_map_set` is not modelled, and rounding up to an alignment is required not to overflow.
- Pmm.Pmm.PlaceRest: what the slot behind a full array holds, and so whether a request ends there with a merge or a panic, is not part of this model.
- Pmm.Pmm.CreateSnapshot: what a copy finds behind the array is not part of this model; the copy is a value here, its bytes in the claimed block are not modelled.
- Pmm.Pmm.Set: for an unforced request that some entry stands against, when it reads behind the array is stated in one direction, and by how much it can fill the array is not stated.
- Pmm.Pmm.Feed: what the original makes of the ranges behind one that does not fit is not modelled; what a single such request does is (`Set`).
- X86Ptm.Ptm.Map: lengths are at most the width of the tables (`TranslatePeriodic` shows that no more can be mapped); physical addresses are taken modulo 2^51, as the builder's masks do, although the hardware's field has one bit more.
- RiscvPtm.Ptm.Map: permissions are required to be ones an entry can express (`LeafFlagsExact` states exactly which).
- X86Ptm.Ptm.CreateHhdmMappings: described memory is required to lie below the width of the tables.
- `ptm_map_at` on both architectures: the same loop on another root table.
- The memory of page tables holds table pages only; that tables and other memory are different pages is proved from the memory map, not from a shared array of bytes.
- Accessed and dirty bits, reserved bits beyond those read here, canonical addresses, and tables that are live while they are built: translation is judged once a call returns.
- KernelLoader.Loader.LoadImage: `filesz <= memsz`, segments inside the file and below the end of the address space are required, which the code does not check; the ELF magic and the search for a section by name are not modelled.
- StartBarrier.NobodyEntersEarly: fewer than 2^32 cores, each started once; weaker memory orderings than interleaving are not modelled.
- Startup.KernelSurvives: the bytes of memory are one function that only the loader changes; that what is claimed or built later lies outside the image is stated by `Prepare` and `HandOver`, on blocks of the memory map.
- Startup.Prepare: the x86-64 sequence; loader, page database and sequence use of a builder what `Map` and `CreateHhdmMappings` promise on both architectures, but are stated for one; why it panics is stated by the methods it calls; ACPI buffers, per-core stacks and set-up (`arch_setup_cpus`) and logging are left out, and the number of levels, CPU features and the kernel's `pagedb_entry_size` are parameters.
- PageDb.Setup: the array is required to fit into the address space and the width of the tables; a page frame that no single entry contains is promised nothing.
- Parsing of boot protocols, FDT, ACPI, UART, descriptor tables, assembly and the C library routines: hardware effects and foreign structures without a property of their own.
- Formats.Vpprintf: counts, widths and precisions beyond the range of `int`, and arguments that do not match the format, are left out; a null string prints as an empty one; a format is a sequence of characters without its terminator.
- IsaString.ParseIsaString: what lies behind a block that is overrun is not modelled; the block is an array of the allocated size, with the pointers beside it at the offsets computed for them; an empty string, for which the code reads behind the terminator, is excluded.
