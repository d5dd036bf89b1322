# The cache engine of iostash, modelled and proved

iostash caches hard-disk blocks on solid-state devices. Its cache engine (`src/sce_*.c`) keeps, for every cached volume
(LUN), a map from logical fragments to physical fragments of the cache devices; a free list threaded through the
fragments; service counters that pin fragments; a CLOCK arm with reference counters; a log of recent misses; and one
invalid bit per 4 KB page. This project models that engine twice and proves the two models equal call by call:

- **On values.** `State.dfy` has one total function per engine call. The lemmas about them say what every call keeps and,
  field by field, what state it ends in (`Invariants`, `Preservation`, `Collection`, `Requests`, `Invalidation`,
  `Population`, `Configuration`, `Eviction`, `Clock`, `Heat`, `LogBounds`). Where one of the engine's promises fails they
  say so: `Holes` (eviction behind a removed device) and `Removal` (a device removed in service) have histories that show
  it, `Holes` and `LogBounds` the exact conditions. `System.dfy` puts the engine between a disk and its cache devices, with
  reads in flight, populations that copy page by page and writes, and `Coherence.dfy` proves that cached reads are
  linearizable in every run.
- **In place.** `Engine.dfy` is a class with the source's own fields, linked free list and loops. Each method ends in the
  state its function computes (`View() == F(old(View()))`), so the lemmas hold of it; the source's `BUG_ON`s are assertions
  or preconditions that are proved at every call. `Bitmap.dfy` has the 32-bit word loops over the page bitmaps,
  `MissLog.dfy` the ring, `FreeList.dfy` the links.
- **Asynchronous write-through.** `Awt.dfy` is the two-bit page protocol under overlapping writes, `AwtBitmaps.dfy` its
  bitmaps, bit loops and bitmap pool.
- **Addresses.** `Geometry.dfy` has the sector arithmetic, with its 32-bit products, from population to hit.

## Assumptions

- Calls are atomic, and so is a disk write together with the `sce_invalidate` before it. The engine's API is the boundary.
- Every successful `sce_get4read`, `sce_get4pop` and `sce_get4write` is answered by one put. LUN contexts are distinct and
  not null.
- `sce_rmcdev` is called when no fragment of the device is in service. `Configuration.RmCdevKeeps` proves that this is
  exactly the condition under which the engine stays sound, and `Removal` what happens otherwise.
- A device has at most 2^24 fragments, a LUN fewer than 2^21. `Geometry` proves which products wrap beyond that.
- Counters are natural numbers that do not wrap, except the LUN's service counter, whose decrement wraps at zero as in C.
- An entry of a new LUN is 0x55555555, so VALID without MAPPED is an ordinary state.
- The value-level functions are total: where the invariant excludes a case (an index outside a table, a mapped entry
  without its fragment), they return the state unchanged or skip the fragment, whatever C would do there.
- The coherence theorem names cache pages by fragment and page; `Geometry` says when their sectors are where the
  population wrote them.
- `sce_put4write` reads the field `fragmaps`, which does not exist; the model reads `fragmap`.

## Reading the names

`Core` is the invariant on the tables, `Boundary` what holds between two calls (`Core`, no LUN waiting for deletion without
service, no idle readable fragment without a valid page). `Shrinks(s, s')` says that a step only dropped idle mappings or
marked pages invalid, `Pins(s, s', l, f, p, d)` that it moved the service of one mapped fragment by `d`. The lemmas whose
names end in `Exact` give the resulting state itself, as an update of the old state's fields: `Dropped` is the state with
one entry given up, `Emptied` the state with one LUN gone, `Settled` either or both. `Dense` says that the device slots in
use are the first ones.

## Model

| member | source | states |
|---|---|---|
| Coherence.CachedReadsLinearize | src/sce_interface.c:272-478 | In every run, with disk writes anywhere inside a LUN, a page of a hit is on the cache device, until its put, what the disk held when the hit was granted, whatever overwrites, populations, evictions and deletions came between; its fragment stays mapped and in service |
| Coherence.StepInv | src/sce_interface.c:81-571 | Each of the twelve steps keeps the whole invariant: tables, tokens, service counts and coherence |
| Coherence.RunInv | src/sce_interface.c:33-571 | The invariant holds in every reachable state |
| Coherence.TokenConstant | src/sce_interface.c:272-388 | While a read is outstanding its token names the same fragment and request |
| Coherence.HitSees | src/sce_interface.c:307-326 | At a hit the cache pages of the request equal the disk pages |
| Coherence.PutAccepted | src/sce_interface.c:359-377 | The put that answers a hit is never refused and meets the fragment that was hit |
| Coherence.PopAlone | src/sce_population.c:68-86 | A fragment being populated has no other population and no read on it |
| Coherence.CopiedCoherent | src/sce_population.c:119-128 | Once all pages are copied, every page still valid equals the disk, overwrites during the copy included |
| Coherence.MapEffect | src/sce_mapping.c:36-105 | Mapping the head of the free list adds one unreadable entry with one token and changes no other mapping |
| Population.Partition | src/sce_freefraglist.c:35-97 | Every fragment is either once on the free list or mapped by exactly one entry, the one it names; nr_frag is the sum of both |
| Population.ReclaimKeeps | src/sce_population.c:52-66 | The allocation loop changes nothing if a fragment is free; otherwise it is one eviction, counted iff it succeeded, and ends with exactly one free fragment or none; the invariant is kept |
| Population.AllocKeeps | src/sce_population.c:32-87 | An allocation succeeds iff a fragment can be had and the entry is unmapped; a failed one loses no fragment |
| Population.AllocExact | src/sce_population.c:68-86 | The whole state after a success: the head of the free list, renamed after its entry, in service once with all counts zero, invalid exactly where it reaches beyond the LUN; the entry mapped and unreadable |
| Population.CompleteExact | src/sce_population.c:89-141 | The whole state after a successful put: the entry mapped and readable, one service less, nothing else different, as long as one page is valid; the entry goes iff every page was overwritten, the LUN iff it waits for deletion and this was its last service |
| Population.CompleteKeeps | src/sce_population.c:89-141 | A completed population gives its token back and keeps the invariant, and with a valid page left its state is the one with the readable entry and nothing more; the last put on a deleted LUN purges it |
| Population.CancelExact | src/sce_population.c:143-205 | The whole state after a failed put: exactly this entry is given up, whatever its pages, and the LUN iff it waits for deletion and this was its last service |
| Population.CancelKeeps | src/sce_population.c:143-205 | A cancelled population leaves its fragment unmapped, on top of the free list, and disturbs nothing else |
| Population.AllocCancel | src/sce_population.c:32-205 | An allocation from the free list, then cancelled, restores the free list exactly |
| Population.Put4PopExact | src/sce_interface.c:543-571 | The put of an outstanding population, found through the LUN context: accepted, the engine sound, and the whole state after either outcome; after a success with a valid page left the entry is mapped and readable |
| Population.Put4PopRefused | src/sce_interface.c:553-566 | A put that names no mapped entry, or a failed one that names a readable entry, is refused and changes nothing |
| Population.Put4PopKeeps | src/sce_interface.c:543-571 | The put of an outstanding population succeeds, keeps the invariant and gives back its token; a success with a valid page left only makes the entry readable, a failure leaves the fragment unmapped, the last put on a deleted LUN purges it |
| Population.SearchFinds | src/sce_lun.c:60-70 | The context of a LUN leads to its own slot |
| Requests.Get4ReadHits | src/sce_interface.c:272-339 | A read is looked up iff it lies in one fragment of a LUN that can be served; it hits fragment p iff p is mapped there, readable, and has none of the requested pages invalid, whatever its counters; any other read changes nothing |
| Requests.Get4ReadExact | src/sce_interface.c:307-331 | The whole state after a look-up: a hit adds one to the service counts and the hit counts and to the references up to four; a miss adds one to a miss count, logs the entry and changes no mapping |
| Requests.Get4ReadKeeps | src/sce_interface.c:272-339 | A hit moves the service of exactly one mapped fragment and a miss of none; the invariant is kept |
| Requests.ReadCases | src/sce_interface.c:298-305 | The page arithmetic of the call selects one fragment and one run of its pages, and refuses exactly what crosses a fragment |
| Requests.InRange | src/sce_interface.c:357-360 | get4read and put4read compute the same fragment and the same single-fragment test, inside the map |
| Requests.Put4ReadExact | src/sce_interface.c:341-388 | When a put is accepted, and the whole state after it: one service less on fragment and LUN and nothing else, unless it was the fragment's last and no page is valid (exactly this entry goes), or the LUN's last while it waits for deletion (exactly its mappings go) |
| Requests.Put4ReadKeeps | src/sce_interface.c:341-388 | A put releases exactly one unit of service and keeps the invariant; the last put on a LUN waiting for deletion purges it |
| Invalidation.InvalidateExact | src/sce_interface.c:390-478 | A request is accepted iff it lies inside a LUN that can be served, across fragments too; then the fragment loop equals a per-page specification of the whole state, otherwise nothing changes |
| Invalidation.InvalidateEntry | src/sce_interface.c:411-462 | In each mapped fragment of the LUN exactly the requested pages become invalid and the valid count follows; the fragment is given up iff it is readable, idle and left without a valid page |
| Invalidation.InvalidateOthers | src/sce_interface.c:411-462 | No other LUN and none of its fragments changes |
| Invalidation.InvalidateKeeps | src/sce_interface.c:390-478 | A request is accepted iff it lies inside a LUN that can be served, and after that no mapped fragment has a valid page in it, populations in progress included |
| Preservation.PurgeIdle | src/sce_lun.c:133-158 | Purging an idle LUN frees all its fragments, clears the slot and lowers nr_lun by one |
| Collection.UnmapExact | src/sce_mapping.c:110-160 | Unmapping an entry whose fragment is idle leaves its miss count in the entry and the fragment on top of the free list, and nothing else is different |
| Collection.PurgeExact | src/sce_lun.c:133-158 | The whole state after purging an idle LUN: its slot empty, its fragments marked and on top of the free list in descending order of their entries; every other slot, mapping and mapped fragment as before |
| Collection.GcExact | src/sce_lun.c:163-181 | The whole state after a collection: the entry goes iff its fragment is idle without a valid page, the LUN iff it is idle and waits for deletion, and no other mapping |
| Preservation.GcSettles | src/sce_lun.c:163-181 | Garbage collection re-establishes the boundary conditions after the last put |
| Invariants.CoreUnmap | src/sce_mapping.c:110-160 | Unmapping keeps the tables, the back pointers, the free list and the service sums |
| Invariants.CoreMapHead | src/sce_mapping.c:36-105 | So does mapping the head of the free list |
| Configuration.AddLunKeeps | src/sce_interface.c:172-200 | A new LUN takes the first empty slot, with as many fresh entries as its sectors need, and nothing else changes; the engine is sound afterwards iff the context was unused and not null and the LUN has fewer than 2^21 fragments |
| Configuration.RmLunKeeps | src/sce_interface.c:202-235 | A LUN in service is only marked; an idle one is purged, and exactly its own mappings go: every other slot, mapping and mapped fragment is as before |
| Configuration.AddCdevKeeps | src/sce_interface.c:81-126 | A new device takes the first empty slot and its fragments stand in order before the old free list |
| Configuration.RmCdevKeeps | src/sce_interface.c:128-170 | Nothing refers to a removed device, everything else is untouched, the counts match; the engine is sound afterwards iff no fragment of the device was in service |
| Configuration.RmCdevLun | src/sce_lun.c:204-236 | Every LUN stays as it was but for its entries on the device, which keep their miss counts |
| Removal.BusyRemoval | src/sce_lun.c:204-236 | What removing a device in service costs, in a concrete history: the LUN's count keeps a service nobody can give back, the put of the population is refused, and after any further calls the deleted LUN is still there |
| Removal.StuckForEver | src/sce_lun.c:133-181 | A LUN marked for deletion with services but no mapped entry is left untouched by every sequence of calls |
| Configuration.FilterIs | src/sce_freefraglist.c:99-125 | What is left of the free list is exactly its members on other devices, once each |
| Clock.AdvanceStep | src/sce_eviction.c:35-71 | With dense slots one call returns the fragment under the arm and moves the arm by one position |
| Clock.Rotation | src/sce_eviction.c:35-71 | With dense slots call number t returns the fragment that was t modulo nr_frag ahead of the arm |
| Clock.RotationIffDense | src/sce_eviction.c:35-71 | nr_frag calls return every fragment iff the slots are dense, and then each of them once |
| Eviction.EvictExact | src/sce_eviction.c:77-110 | With dense slots the call succeeds iff some mapped idle fragment has fewer than four references; its victim has the least (references, clock distance), and a failed call sweeps four rounds |
| Eviction.VictimIsLeast | src/sce_eviction.c:93-105 | The victim is lexicographically least in (nr_ref, clock distance), and unique |
| Eviction.EvictedFacts | src/sce_eviction.c:93-105 | The victim is on top of the free list, every other idle fragment has lost one reference per visit of the arm, fragments in service none |
| Eviction.EvictProgress | src/sce_eviction.c:83-107 | With dense slots, if idle fragments exist and the call fails, all had four references and now have none, and the next call succeeds |
| Eviction.EvictKeeps | src/sce_eviction.c:77-110 | On any state, dense or not, an eviction keeps the invariant and adds at most one free fragment |
| Eviction.EvictAtHole | src/sce_eviction.c:50-64 | A call that finds the arm at an empty slot evicts nobody, whatever is idle, and changes nothing but the arm |
| Eviction.EvictNever | src/sce_eviction.c:44-64 | With one device left behind an empty first slot no call evicts anything, now or later (a case of `EvictsIff`) |
| Holes.EvictsIff | src/sce_eviction.c:44-110 | The exact condition for progress, holes or not: repeated calls evict something at some point iff an idle fragment sits on one of the first nr_cdev slots, whatever its references and wherever the arm stands |
| Holes.EveryArmIffDense | src/sce_eviction.c:44-110 | The exact condition for one call: with an idle fragment below four references, a call succeeds from every arm value iff the slots are dense |
| Holes.HoleStops | src/sce_interface.c:147-165 | A concrete history: two devices, a fragment of the second populated, the first removed while idle. The engine is sound, the fragment idle and unreferenced, and no call ever evicts it |
| Holes.EvictExplained | src/sce_eviction.c:77-110 | One call on any state, dense or not: it ends at the first idle fragment visited as often as it has references (evicted), at the first empty slot (failed) or after four times nr_frag visits (failed), every idle fragment passed having lost one reference per visit |
| Holes.OneOutcome | src/sce_eviction.c:84-107 | Of these endings exactly one applies, so the state after the call is determined |
| Heat.StepCounts | src/sce_mapping.c:146-154 | Conservation of miss counts: in any step an entry's count grows by one (modulo 2^28) iff a read misses it, becomes zero iff a population maps it, and is otherwise kept through evictions, cancellations and device removal |
| Heat.ReadCountsOne | src/sce_interface.c:307-330 | A read looked up is counted once, as a hit or as a miss; a miss is logged first and warms only its own entry |
| Heat.ReclaimCounts | src/sce_eviction.c:77-110 | Evictions forget no miss |
| Heat.CancelCounts | src/sce_population.c:171-180 | Nor does cancelling a population |
| Heat.AllocCounts | src/sce_mapping.c:72-99 | A population starts its entry's count at zero and keeps all others |
| MissLog.Choose4Population | src/sce_population.c:241-288 | On a log whose scanned entries lie inside their maps, the scan returns the most recent unmapped entry with the greatest positive miss count among the newest 100, reading only up to the first entry whose LUN cannot be served |
| MissLog.ChoiceUnique | src/sce_population.c:261-284 | That specification admits one result |
| MissLog.LogHolds | src/sce_misslog.c:34-55 | The log is the last 1024 puts, newest first |
| MissLog.Log.Put | src/sce_misslog.c:34-55 | The ring adds in front and drops the oldest entry when full |
| MissLog.Log.Get | src/sce_misslog.c:57-89 | Index i is the i-th newest entry; it is refused iff it is missing or its LUN cannot be served |
| LogBounds.ScansStayInside | src/sce_population.c:262-276 | In a run no scan ever reads past a fragment map iff every LUN that took a slot was large enough for what the scan could then reach; the newest 100 misses of served LUNs all stay inside iff every LUN was large enough for those of its own slot |
| LogBounds.AddLunLogs | src/sce_interface.c:186-193 | Adding a LUN keeps the newest 100 misses inside the maps iff it reaches those logged for its slot, and keeps the scan inside iff it reaches those the scan meets once the slot is served |
| LogBounds.StepBounds | src/sce_interface.c:81-571 | No other step can bring the scan outside a map |
| LogBounds.SmallerReuse | src/sce_population.c:272 | A concrete run where a smaller LUN in a reused slot puts the first scanned miss past the end of its map |
| Geometry.EndToEnd | src/iostash_population.c:63-86 | A hit on disk sector psn reads the cache sector into which the population copied disk sector psn, iff the LUN fragment is below 2^21 and the cache fragment is not one below a multiple of 2^21 |
| Geometry.HitAgrees | src/iostash_iohook.c:166-168 | A hit reads the sector the population wrote iff the fragment number is not one below a multiple of 2^21; the header is spared on the same condition |
| Geometry.NoClashIff | src/iostash_iohook.c:166-168 | Different fragments and offsets have different cache sectors iff the device has at most 2^21 fragments |
| Geometry.InsideDevice | src/iostash_iohook.c:166-168 | Every hit sector lies inside a device that holds the header and the fragments |
| Geometry.ReadsOwnSectors | src/iostash_population.c:63-65 | A population reads its own fragment iff the fragment number is below 2^21 |
| Geometry.FillsInside | src/iostash_population.c:63-65 | A population reads inside the LUN; its buffer holds a page of its fragment iff the page lies wholly inside the LUN and the fragment number is below 2^21 |
| Geometry.ClearIffInside | src/sce_mapping.c:76-89 | After mapping, a page is clear iff it lies wholly inside the LUN |
| Geometry.TailsAgreeIff | src/sce_mapping.c:78-87 | The 32-bit product gives the right tail iff the LUN has fewer than 2^21 fragments or ends on a fragment boundary |
| Words.UnpackPack | src/sce_internal.h:31-41 | A descriptor is recovered from its 32-bit word; only the zero descriptor packs to the null link |
| Words.PackUnpack | src/sce_internal.h:31-41 | Every 32-bit word is the packing of its fields; 0x55555555 is VALID and not MAPPED |
| Words.IncAgrees | src/sce_internal.h:40-41 | Counting a miss on the word leaves the flag bits alone even when the count wraps |
| Words.PfidSplits | src/sce_internal.h:54-62 | A fragment id is recovered from its device and offset |
| FreeList.ChainUnique | src/sce_freefraglist.c:35-63 | The links determine the list |
| FreeList.FlagsIgnored | src/sce_freefraglist.c:49-50 | Links that differ only in the valid and reserved bits describe the same list |
| FreeList.ChainUnlink | src/sce_freefraglist.c:107-121 | Redirecting one link takes out one member and keeps the order of the others |
| FreeList.PutLinked | src/sce_freefraglist.c:35-63 | A put makes a list with the fragment in front, and its count stays below the number of fragments |
| FreeList.GetLinked | src/sce_freefraglist.c:68-97 | The list is empty iff its head word is zero; otherwise a get leaves the rest of the list and an unlinked fragment |
| FreeList.TurnLinked | src/sce_freefraglist.c:107-121 | One turn of the removal loop keeps a proper list in either branch |
| Bitmap.SetBitmap | src/sce_fragment.c:49-70 | The word loop adds exactly the range of pages to the set and returns how many were new |
| Bitmap.ResetBitmap | src/sce_fragment.c:73-94 | It removes exactly the range and returns how many were there |
| Bitmap.CheckBitmap | src/sce_fragment.c:130-166 | The masked word scan succeeds iff no page of the range is in the set |
| Awt.ReturnsToValid | src/sce_fragment.c:285-311 | In every run a pending page becomes valid exactly when a write ends well that found it not pending and since whose start no write and no invalidation touched it; then both devices hold that write's data |
| Awt.NoBugOn | src/sce_fragment.c:290-299 | In every run the pages of a write in flight keep their pending bit and their bitmap and its put is accepted, valid counts cannot underflow, and the fragment is given up only with no write or read left and no page valid |
| Awt.ValidCount | src/sce_fragment.c:219-311 | In every run nr_valid is the number of pages in state 00 |
| Awt.StepInv | src/sce_interface.c:574-714 | Every start, landing page, end, invalidation and read, and every service elsewhere on the LUN, keeps the protocol's invariant: valid pages equal the disk, and fragment and LUN are in service for exactly their writes and reads |
| Awt.RunInv | src/sce_fragment.c:219-329 | The protocol's invariant holds in every reachable state |
| Awt.AcceptedIff | src/sce_interface.c:616-640 | A write is taken iff it is aligned, has a pending bitmap and a page not pending yet; a refused one does what an invalidation does, and the merge after a refusal is never reached |
| AwtBitmaps.SetBitmap4Awt | src/sce_fragment.c:219-238 | 00 becomes 01 and 11 becomes 10 in the range, and the result counts the former |
| AwtBitmaps.MergeInto | src/sce_fragment.c:313-329 | The merge is the union of the two page sets |
| AwtBitmaps.Fragment.Invalidate | src/sce_fragment.c:99-128 | The invalidation step of the protocol, with and without a pending bitmap |
| AwtBitmaps.Fragment.IsValid | src/sce_fragment.c:168-185 | A range is valid iff every page of it is in state 00 |
| AwtBitmaps.Fragment.WriteStart | src/sce_fragment.c:240-283 | The page loop computes the start of the protocol and reports whether some page was not pending |
| AwtBitmaps.Fragment.WriteEnd | src/sce_fragment.c:285-311 | The page loop computes the end of the protocol; its BUG_ON holds |
| AwtBitmaps.Fragment.MergeBitmap | src/sce_fragment.c:313-329 | Merging and returning the bitmap to the pool |
| AwtBitmaps.Fragment.BeginWrite | src/sce_interface.c:615-640 | The in-place call computes the protocol's get, service counts of fragment and LUN included |
| AwtBitmaps.Fragment.EndWrite | src/sce_interface.c:688-703 | The in-place call computes the protocol's put, service counts of fragment and LUN included |
| AwtBitmaps.Pool.Put | src/sce_freefraglist.c:128-134 | The bitmap becomes the head of the linked pool, with its first words taken by the link, and the others stay in order |
| AwtBitmaps.Pool.Get | src/sce_freefraglist.c:136-147 | The head leaves the linked pool with no page set, whatever its words held |
| Engine.Engine.constructor | src/sce_interface.c:33-58 | The new engine is the empty state of the value model, with an empty list and an empty log |
| Engine.Engine.FreeFragListPut | src/sce_freefraglist.c:35-63 | Pushes an existing fragment that is not listed; a double put is refused |
| Engine.Engine.FreeFragListGet | src/sce_freefraglist.c:68-97 | Pops the head and takes its link and mark away |
| Engine.Engine.FreeFragListRmCdev | src/sce_freefraglist.c:99-125 | The pointer loop filters the list by device and keeps the order |
| Engine.Engine.MapFrag | src/sce_mapping.c:36-105 | Fails without any change, or maps the fragment with the LUN's tail invalid |
| Engine.Engine.UnmapFrag | src/sce_mapping.c:110-160 | Frees an idle mapped fragment and keeps its miss count, as `UnmapExact` says, or changes nothing |
| Engine.Engine.GetFragAdvanceClockArm | src/sce_eviction.c:35-71 | The arm word moves as the rotation lemmas say, and the fragment returned is the one under the arm |
| Engine.Engine.EvictFrag | src/sce_eviction.c:77-110 | The counted loop computes the eviction of `EvictExact` |
| Engine.Engine.LunPurge | src/sce_lun.c:133-158 | The loop computes the purge of `PurgeExact` |
| Engine.Engine.LunGc | src/sce_lun.c:163-181 | Computes the garbage collection of `GcExact` |
| Engine.Engine.LockLun | src/sce_interface.c:242-270 | Accepts exactly the non-empty requests inside an existing LUN, refusing a LUN that waits for deletion where service is checked |
| Engine.Engine.Get4Read | src/sce_interface.c:272-339 | The fields end in the state and the hit of `Get4ReadHits` and `Get4ReadExact`, miss log included; a hit names the device context and the offset to read; the engine stays sound |
| Engine.Engine.Put4Read | src/sce_interface.c:341-388 | The fields end in the state of `Put4ReadExact`; garbage collection runs exactly when the last service of the fragment is given back |
| Engine.Engine.Invalidate | src/sce_interface.c:390-478 | The fields end in the state of `InvalidateExact` and `InvalidateEntry`; the loop ends with no page left and no valid count underflows |
| Engine.Engine.TakeFragment | src/sce_population.c:52-66 | The unbounded retry loop ends in its first or second round |
| Engine.Engine.PlaceFragment | src/sce_population.c:68-83 | A fragment that cannot be mapped goes back and leaves the state as it was |
| Engine.Engine.Alloc4Population | src/sce_population.c:32-87 | The fields end in the state of `AllocKeeps` and `AllocExact`, with eviction, mapping, pinning and the way back |
| Engine.Engine.CompletePopulation | src/sce_population.c:89-141 | The fields end in the state of `CompleteExact`; the link of a mapped fragment is always zero |
| Engine.Engine.CancelPopulation | src/sce_population.c:143-205 | The fields end in the state of `CancelExact`; the branch for a secondary fragment is never reached |
| Engine.Engine.FindLunByCtx | src/sce_lun.c:60-70 | The loop finds the first slot with the context, or none |
| Engine.Engine.Put4Pop | src/sce_interface.c:543-571 | The fields end in the state of `Put4PopExact` or `Put4PopRefused`; an outstanding population is always accepted and leaves the engine sound |
| Engine.Engine.Get4Pop | src/sce_interface.c:505-541 | When the scan is inside the maps, the entry chosen by `IsChoice` is allocated, and the task names the LUN, the device and both fragment numbers |
| Engine.Engine.CdevSearch | src/sce_cachedev.c:33-44 | The loop succeeds iff some slot has the context |
| Engine.Engine.AddCdev | src/sce_interface.c:81-126 | The fields end in the state of `AddCdevKeeps`: pushing from the last fragment down leaves the list in ascending order |
| Engine.Engine.LunRmCdev | src/sce_lun.c:204-236 | The loop replaces exactly the entries on the device by their miss counts |
| Engine.Engine.RmCdev | src/sce_interface.c:128-170 | The list, map and table loops together end in the state of `RmCdevKeeps`; the engine is sound iff the device was idle |
| Engine.Engine.AddLun | src/sce_interface.c:172-200 | The first empty slot holds the new LUN with a fresh map; the engine is sound afterwards iff the context is new and the size fits |
| Engine.Engine.RmLun | src/sce_interface.c:202-235 | The fields end in the state of `RmLunKeeps`, deferred or purged at once, no other LUN touched |

## Left out

- Locks, interrupt flags and interleaving inside one call: calls are atomic here.
- Allocation failure in `vmalloc` and `kmalloc`, and `sce_destroy`, which frees all tables.
- `lun->stats`: eviction and garbage collection never lower `alloc_sctrs`, so those numbers conserve nothing.
- `sce_get_status`, which copies five counters.
- `SCE_POPULATION_MRU`, the must-have queue and `_misslog_gc`, which no call of this configuration reaches.
- Secondary fragments: a mapped fragment's link is proved zero, so their branches are dead.
- Device handles: LUNs, devices and fragments are named by slot and id instead of by pointer, and the fragment tables of
  all devices are one map from ids to records. A record of that map is a value; aliasing of records is not modelled.
- Engine.Engine.FragInvalidate: works on the set of invalid pages, because `Bitmap.SetBitmap` proves the word loop equal to
  it on its own.
- Engine.Engine.FragIsValid: likewise works on the set; the masked word scan is `Bitmap.CheckBitmap`.
- Configuration.AddCdevKeeps: does not cover a device of more than 2^24 fragments, whose offsets no fragment id can hold.
- Engine.Engine.AddCdev: likewise.
- Clock.AdvanceStep: is stated for dense slots; on any state `Clock.AdvanceKnown` says what the arm can point at.
- Clock.Rotation: is stated for dense slots, which `Clock.RotationIffDense` shows to be the exact condition.
- Eviction.EvictExact: is stated for dense slots; `Holes.EvictExplained` covers the others.
- Eviction.EvictProgress: is stated for dense slots; `Holes.EvictsIff` has the exact condition on any state.
- MissLog.Choose4Population: says nothing of a scan that leaves a map, where C reads whatever lies behind it;
  `LogBounds.ScansStayInside` says exactly when that cannot happen.
- Engine.Engine.Get4Pop: likewise.
- Write-through on a fragment that is still being populated: `sce_put4write` and `_complete_population` assume it away.
- Awt.StepInv: covers one fragment at a time; the lookup of the LUN and of the fragment is that of the engine's reads.
- Kernel plumbing: bio cloning and its pending count, the range check of `iostash_mkrequest`, RCU, sysfs, the device hash
  tables, and the daemon's threads, rates and sleeps (`src/pdm.c`).
