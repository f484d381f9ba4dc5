# A verified model of the NVOL3 flash store

NVOL3 keeps a map from binary keys to data in two sectors of AND-only flash. An update appends a record,
flips it to VALID and then clears the record it replaces. A full sector is compacted into the other one,
which is committed by one header byte before the source is erased. A load reads the two sector headers,
chooses the surviving sector by a table of sixteen cases and rebuilds a RAM index by scanning.

This project models that store, the RAM emulation of its flash driver, the chained hash table of its
index, and two neighbours: the page-splitting SPI flash driver and the substitution parser. It proves
that sets are atomic although power can fail after any programmed byte, also inside a compaction and
during recovery, and it gives the exact condition under which deletes are.

How the files build on each other:

- `Flash.dfy` is AND-only flash and the RAM driver. Its ghost history has one image for every programmed
  byte: these are the places where power can fail.
- `Records.dfy` parses one record slot and says what a torn write of it reads as. `Logs.dfy` folds the
  slots of a sector into a map: the last live record of a key wins.
- `Volumes.dfy` has the three kinds of flash command and the images they pass through. `Protocol.dfy` says
  which commands each operation issues and which RAM state it leaves.
- `Recovery.dfy`, `Durability.dfy`, `Atomicity.dfy`, `Compaction.dfy`, `CrashSafety.dfy`,
  `Bookkeeping.dfy`, `ReadBack.dfy` and `Runs.dfy` prove what follows from that, up to whole runs.
- `Mounts.dfy` says what a load does for each pair of headers, and `Capacity.dfy` how much a store holds.
- `FreeSlots.dfy` says how many slots an interrupted operation takes, and `Wear.dfy` how often a run can
  change to the other sector; `Erases.dfy` counts erases, and `Counters.dfy` keeps the counters exact.
- `Resets.dfy` is about resets that power cuts short, and `Starts.dfy` about the choice between a load and a
  reset that nvol3_validate makes at power-up.
- `Shadows.dfy` shows how a deleted key can come back, and `Overfull.dfy` how far the limit can be passed.
  `Breaches.dfy` and `Remnants.dfy`, on `Scenarios.dfy`, are runs that need the conditions of these results.
- `ChecksumBound.dfy` is about the record checksum alone.
- `Dictionaries.dfy` is the hash table as an object, with its unsorted and sorted walks.
- `Layout.dfy` and `Media.dfy` connect addresses and bytes to slots and headers, and `Nvol3.dfy`, with the
  small facts of `Steps.dfy`, is the store as an object: its methods issue exactly the commands of
  `Protocol.dfy`, byte image by byte image. `Bytes.dfy` says which bytes stand where after them.
- `SpiFlash.dfy` and `StrSub.dfy` stand alone, and `Cardinality.dfy` is about sizes of sets.

What the model takes for granted: the configuration is as `Config.Ok` and `Layout.Fits` say (more than
four and fewer than 65535 slots, a record holds at least its key, disjoint sectors that stay clear of the
driver's last byte); an erase is one step; the driver and the allocator succeed. A record that is set has
at least a key. Claims about power failures start from a volume that stores a map, such as a completed
format; `Resets.dfy` covers the format itself. Such a volume need not have been loaded.

Some facts about the source that the proofs bring out:

- A power failure between marking a new record VALID and clearing the old one leaves two VALID records of
  one key. A load picks the later one but does not clear the older one, so that a later delete makes the
  older data come back at the next load (`Shadows.ComesBackAfterFormat`). `CrashSafety.DeleteIsDurable`
  states the exact condition under which a delete is durable, a swap re-establishes it
  (`Compaction.SwapResult`), and crash-free runs never break it (`Runs.CrashFreeRunsAreClean`). Sets need
  no such condition.
- For the same reason the limit of max_records - 4 records can be passed: the guard of a set counts the keys
  of the dictionary, and a key whose delete has met an older record is on flash without being there
  (`Breaches.LimitIsPassed`), by two keys at most (`Overfull.TwoKeysAtMost`). `Overfull.LoadAfterSet` has the
  exact condition, and runs whose deletes meet no older record stay within the limit
  (`Wear.RunsStayWithinLimit`).
- A reset erases sector one first. If power fails after that, the load takes what sector two has. That is the
  old map or none, unless a swap into sector two has been cut short and the volume was reset without a load:
  then it is the part of the map that had been copied (`Remnants.PartAfterFormat`). `Resets.ResetIsAtomic`
  has the condition on the headers, and a loaded store always meets it (`Resets.LoadedResetIsAtomic`).
- While a swap out of sector two writes the header of sector one, flags come before the version. After 4 to
  13 of its bytes nvol3_validate returns E_VERSION, and registry_start erases a volume whose map is intact; a
  load would have kept it (`Starts.StartAfterFailure`).
- A power failure while the header of a format is written leaves an empty store, but after 4 to 13 of its 16
  bytes the header is VALID and its version is not yet that of the volume, so that later loads return
  E_VERSION until the volume is reset again (`Resets.TornReset` has the exact condition).
- A power failure costs one free slot at most, also inside a swap (`FreeSlots.CutTakesOne`).
- The limit of max_records - 4 records holds for updates as well: at the limit a set of a key that is
  already there is refused too (`CrashSafety.SetResult`).
- A text that strsub_parse_string_to has to cut is not terminated (`StrSub.Instance.ParseStringTo`).
- An erase by the SPI driver that starts inside a sector can leave dirty bytes in that sector
  (`SpiFlash.SkippingIsSound`).
- A comment in `init_sectors` (src/nvram/nvol3.c:1680) says that sector one is used for the header pair
  (INITIALIZING, INVALID); the code takes sector two, and so does the model.

## Model

| member | source | states |
|---|---|---|
| Flash.RamDrv.Erase | src/drivers/ramdrv.c:63-74 | a range within the memory is set to 0xFF except the last byte of the memory; a bad range returns E_PARM and changes nothing; one image enters the history |
| Flash.RamDrv.Write | src/drivers/ramdrv.c:76-91 | the range is ANDed with the data; the history gets one image per programmed byte, low address first; E_PARM changes nothing and is returned also when the range reaches the last byte |
| Flash.RamDrv.Read | src/drivers/ramdrv.c:93-102 | the buffer gets exactly the bytes of the range and is unchanged around them; E_PARM leaves it alone |
| Records.SlotMeans | src/nvram/nvol3.h:82-87 | a slot is EMPTY exactly if it begins with FF FF, INVALID exactly if with 00 00, and readable exactly if it begins with AF AA and the 16-bit length behind that, low byte first, fits the slot; everything else is unreadable |
| Records.RecordMeans | src/nvram/nvol3.c:1215-1229 | a readable slot holds a record exactly if the byte sum of its body and its checksum add up to a multiple of 2^16, and is corrupt if not |
| Records.SumAppends | src/nvram/nvol3.c:1222-1224 | the byte sum of a concatenation is the sum of the byte sums of its parts |
| Records.TornAppend | src/nvram/nvol3.c:917-935 | appending a record to an erased slot, cut after any byte: the slot is still erased, or it is taken and unreadable, never live and never empty by accident |
| Records.CommitRecord | src/nvram/nvol3.c:949-950 | flipping a written record to VALID, cut after 0, 1 or 2 bytes: it is live exactly after the second byte, and then has the intended body |
| Records.ClearFlags | src/nvram/nvol3.c:1196-1213 | clearing the flags of a readable record, cut after 0, 1 or 2 bytes: as before, unreadable, or INVALID |
| Records.RecordReads | src/nvram/nvol3.c:917-924 | a record built by record_set and marked VALID parses to its body: the checksum fits |
| Records.CopyReads | src/nvram/nvol3.c:1401-1403 | a compactor's copy into an erased slot is readable and parses like the original |
| Logs.NewestIsLast | src/nvram/nvol3.c:1274-1327 | the scan keeps for each key exactly its last VALID, checksum-good slot |
| Logs.KillSlot | src/nvram/nvol3.c:971-977 | clearing an older record of a key does not change which records win |
| Logs.KillNewest | src/nvram/nvol3.c:424-433 | clearing the winning record of a key removes the key exactly when it has no older live record, and touches no other key |
| Logs.KillNewestView | src/nvram/nvol3.c:418-443 | on the stored map: the other keys stay, and the key is gone if and only if it was not shadowed |
| Logs.PackedLiveSlots | src/nvram/nvol3.c:1373-1431 | the order-preserving copy of all live records stores the same map as the source |
| Logs.PackedByKeys | src/nvram/nvol3.c:1510-1547 | the copy that follows the index stores for each of its keys the record the entry led to, without duplicates |
| Logs.LiveRecordsAndKeys | src/nvram/nvol3.c:1303-1311 | there are at least as many live records as keys, and as many exactly when no record is shadowed |
| Volumes.ExecAppend | src/nvram/nvol3.c:1467-1581 | carrying out two command lists one after the other: final volume and every image in between |
| Recovery.OpenHead | src/nvram/nvol3.c:1367-1368 | programming INITIALIZING on an empty header, cut after k bytes: the flags change with the fourth byte |
| Recovery.CommitHead | src/nvram/nvol3.c:1436-1437 | INITIALIZING to VALID is a switch at a single byte, the third |
| Recovery.SlotCommands | src/nvram/nvol3.c:1173-1213 | slot commands touch neither their sector's header nor the other sector, at any moment |
| Recovery.LoadIsTotal | src/nvram/nvol3.c:1583-1745 | from any two sectors whatsoever a load ends with exactly the active sector VALID and the other one EMPTY |
| Recovery.PlanRecovers | src/nvram/nvol3.c:1614-1742 | each of the sixteen header pairs leads to one VALID and one EMPTY sector |
| Recovery.ReplaceFlags | src/nvram/nvol3.c:270-324 | after a repair the destination is VALID and the source erased, whatever the records were |
| Recovery.DropBadCleans | src/nvram/nvol3.c:1592-1610 | a sector whose flags are none of the four words is erased and counts as empty; others are untouched |
| Durability.ScanMarks | src/nvram/nvol3.c:1274-1327 | the scan marks exactly the VALID records with a bad checksum, and no image of it shows any other change |
| Durability.MarkedKeeps | src/nvram/nvol3.c:1319-1320 | marking corrupt records, completely or torn, keeps the sector good, its free slots and its winning records |
| Durability.MountDurable | src/nvram/nvol3.c:1614-1742 | mounting a volume that holds a map chooses the sector that holds it and at most erases the other one |
| Durability.Boot | src/nvram/nvol3.c:1583-1745 | a load of a volume that holds a map builds exactly the index of that map, and every image during the load still holds the same map |
| Durability.RecoveryIsIdempotent | src/nvram/nvol3.c:1583-1745 | any number of loads that are cut short after any number of steps leave a volume whose load builds the same index |
| Durability.StoresIsLoaded | src/nvram/nvol3.c:106-156 | what a volume stores is what a load finds |
| Durability.ScanResult | src/nvram/nvol3.c:1262-1337 | after a scan the RAM state fits flash: next slot, in-use and invalid counts, index entries |
| Atomicity.TakeSlot | src/nvram/nvol3.c:934-965 | filling the first empty slot: good sector, next slot plus one, the new record wins if it is live, counts follow |
| Atomicity.ClearSlot | src/nvram/nvol3.c:971-977 | clearing a live slot: next slot stays, one live record less, the winners stay unless it was the winner |
| Atomicity.WriteRecord | src/nvram/nvol3.c:934-935 | every byte of the append leaves the stored records as they were |
| Atomicity.CommitStore | src/nvram/nvol3.c:949-950 | the second byte of the VALID flags is the moment at which the new record replaces the old one |
| Atomicity.RetireRecord | src/nvram/nvol3.c:971-977 | clearing the superseded record, torn or not, changes no winner |
| Atomicity.StoreMoments | src/nvram/nvol3.c:934-977 | every image of a store holds the old records or the new ones |
| Atomicity.StoreResult | src/nvram/nvol3.c:834-990 | a completed store: accepted exactly if the body fits and the count is below the limit; the map gets the new data; the RAM state fits flash again |
| Atomicity.StoreImagesHold | src/nvram/nvol3.c:834-990 | every image of a store holds the old map or the new one |
| Atomicity.EntryLeads | src/nvram/nvol3.c:861-880 | every index entry leads to the winning, readable record of its key |
| Compaction.CopiesLand | src/nvram/nvol3.c:1510-1547 | the chosen slots are copied to the front of the destination and nothing else changes |
| Compaction.CompactResult | src/nvram/nvol3.c:1350-1449 | a completed compaction: good destination with exactly the chosen records packed, source untouched |
| Compaction.CompactMoments | src/nvram/nvol3.c:1350-1449 | until the commit the source is untouched and the destination is erased or INITIALIZING |
| Compaction.MoveKeepsMap | src/nvram/nvol3.c:270-324 | repair by move_sector keeps the stored map |
| Compaction.SwapResult | src/nvram/nvol3.c:1467-1581 | a completed swap: the other sector is active and stores exactly the shown map, the index is exact, next slot is the number of keys, no key is shadowed |
| Compaction.WalkFits | src/nvram/nvol3.c:1510-1547 | an index never has more keys than a sector has slots |
| Compaction.WalkCompacts | src/nvram/nvol3.c:1510-1547 | the entries that a swap follows lead to live, readable records of their keys |
| CrashSafety.SwapMoments | src/nvram/nvol3.c:1467-1581 | every image of a swap stores the map before it or the map after it |
| CrashSafety.SetResult | src/nvram/nvol3.c:354-378 | a completed nvol3_record_set, swap included: EOK exactly if the body fits and there is room; the map is updated at the key and nowhere else |
| CrashSafety.SetMoments | src/nvram/nvol3.c:354-378 | every image of a set, whatever the history, stores the map before, the one after the swap or the one after the set |
| CrashSafety.SetIsAtomic | src/nvram/nvol3.c:354-378 | with an exact index every image of a set, also inside a swap, stores the map before or the map after, never a third one |
| CrashSafety.HeaderPairs | src/nvram/nvol3.c:59-62 | a volume that stores a map has one of the header pairs (V,E), (V,I), (V,V), (E,V), (I,V) |
| CrashSafety.BothValidAgree | src/nvram/nvol3.c:1557-1573 | whenever both sectors are VALID during a swap they store the same map |
| CrashSafety.CompactorsAgree | src/nvram/nvol3.c:1340-1581 | move_sector and swap_sectors produce sectors with the same map as the source |
| CrashSafety.DeleteResult | src/nvram/nvol3.c:418-443 | a completed delete: E_NOTFOUND exactly for an absent key, else the key leaves the shown map; the index stays exact if and only if the key had no older VALID record |
| CrashSafety.DeleteIsDurable | src/nvram/nvol3.c:418-443 | already after the first byte of the flag write: the other keys are unchanged, and a load no longer finds the key if and only if it has no older VALID record |
| Bookkeeping.LoadCounts | src/nvram/nvol3.c:1269-1329 | after any load, from any flash, next is the first EMPTY slot of the active sector; inuse and invalid count the readable VALID and the INVALID slots in front of it, where no VALID record with a bad checksum is left; slots behind it are not looked at |
| Bookkeeping.LoadCountsOnce | src/nvram/nvol3.c:1269-1329 | after any load, from any flash, inuse, error and the slots that were INVALID before the scan are together next: each slot in front of the first EMPTY one is counted once, and an error is an unreadable slot or a VALID record with a bad checksum |
| Bookkeeping.CountsCoverSector | src/nvram/nvol3.c:1269-1329 | as long as the RAM state fits flash, inuse and invalid count the VALID records with a fitting checksum and the INVALID slots of the whole sector, and next the slots that are not EMPTY |
| Bookkeeping.CleanMeans | src/nvram/nvol3.c:1269-1329 | inuse equals the dictionary count exactly when no VALID record is shadowed or missing from the index; it is never less |
| Bookkeeping.CleanUnshadows | src/nvram/nvol3.c:430-437 | in a clean store a delete needs no condition |
| Bookkeeping.SetKeepsClean | src/nvram/nvol3.c:354-378 | a set keeps a clean store clean, and a swap makes any store clean |
| Bookkeeping.DeleteKeepsClean | src/nvram/nvol3.c:418-443 | so does a delete |
| Bookkeeping.CacheIsTransparent | src/nvram/nvol3.c:1002-1012 | for every local_size an entry has the length that is on flash, and a cached copy the bytes that are on flash |
| Bookkeeping.GetIsLookup | src/nvram/nvol3.c:992-1028 | nvol3_record_get is the lookup in the shown map |
| ReadBack.SetReadsBack | src/nvram/nvol3.c:354-378 | every write of a set, swap included, reads back exactly as it was written |
| ReadBack.DeleteReadsBack | src/nvram/nvol3.c:418-443 | so does the write of a delete |
| ReadBack.LoadReadsBack | src/nvram/nvol3.c:1583-1745 | so do the writes of a load of a volume that stores a map |
| ReadBack.FormatReadsBack | src/nvram/nvol3.c:1620-1625 | so does the header of a format |
| ReadBack.CompactReadsBack | src/nvram/nvol3.c:1350-1449 | and everything a compaction into an erased sector programs |
| Runs.DoneRefinesMap | src/nvram/nvol3.c:354-443 | after any history, get, set and delete that complete are lookup, update and removal on the shown map |
| Runs.CutRecovers | src/nvram/nvol3.c:354-443 | an operation cut at any step, followed by any number of cut loads and a complete one: exact index, and a map that the operation allows |
| Runs.StepIsAtomic | src/nvram/nvol3.c:354-443 | one event of a run takes the map to the one before or the one after its operation |
| Runs.RunsAreAtomic | src/nvram/nvol3.c:354-443 | over whole runs with any number of power failures at any byte, every state has an exact index and every event is atomic, if deletes meet no older record |
| Runs.RunsStaySound | src/nvram/nvol3.c:354-443 | without any condition on deletes: the RAM state always fits flash and completed operations refine the map |
| Runs.CrashFreeRunsAreClean | src/nvram/nvol3.c:949-977 | in runs without power failures no VALID record is ever shadowed, so deletes need no condition |
| Runs.FormatIsEmpty | src/nvram/nvol3.c:209-238 | the load of two erased sectors comes up empty, exact and clean |
| Runs.OperationHeaders | src/nvram/nvol3.c:59-62 | at every moment of every set and delete the header pair is one of the five |
| Runs.LoadHeaders | src/nvram/nvol3.c:1583-1745 | and at every moment of every load after a power failure |
| Runs.RunsReadBack | src/nvram/nvol3.c:1173-1213 | over whole runs every write of a set, a delete or a load that has finished, also inside an operation or a load that is cut short later, reads back exactly |
| Mounts.MountExact | src/nvram/nvol3.c:1614-1742 | the mount of a volume that stores a map issues exactly one command, the erase of the other sector, or none if the map is in sector two and sector one is EMPTY |
| Mounts.ValidIsUsed | src/nvram/nvol3.c:1631-1725 | for every pair of headers with a VALID one: sector one is used if it is VALID, else sector two; the erases of the mount are exactly one of the other sector, none if sector two is used and sector one is EMPTY, and two of sector two if its flags are unknown words |
| Mounts.LoadRepairs | src/nvram/nvol3.c:1638-1742 | for every pair without a VALID header and with flags in at least one: the load shows the map of sector two exactly if sector one has no flags, or sector one is INITIALIZING and sector two INVALID, and otherwise that of sector one; the other sector is active then, and the index is exact (an EMPTY header is that of an erased sector, records hold at least a key) |
| Mounts.LoadFormatsBlank | src/nvram/nvol3.c:1614-1625 | if neither header has flags the load leaves what the load of two erased sectors leaves |
| Capacity.SlotsOfSector | src/nvram/nvol3.c:90-95 | max_records is the number of record_size slots that fit behind the first 32 bytes of a sector |
| Capacity.SetStatus | src/nvram/nvol3.c:842-858 | after any history a set returns EOK exactly if its key and data and eight bytes fit record_size and the shown map has fewer than max_records - 4 keys, and EFAIL if not; the map gets the data or is as before |
| Capacity.StoreHolds | src/nvram/nvol3.c:850-858 | from a format up to max_records - 4 records of different keys that fit are all accepted and all there in the end; with max_records - 4 keys every further set returns EFAIL and changes nothing |
| Resets.ResetMoments | src/nvram/nvol3.c:209-238 | of any volume: the first image of a reset is the volume with sector one erased, and every later one is a blank volume with the first k bytes of the header of a format |
| Resets.TornReset | src/nvram/nvol3.c:1056-1063 | a load of a blank volume with the first k of 16 header bytes comes up empty for every k; the version in its header is that of the volume if and only if k is below 4 (the load formats again) or at least 14, or the missing version bytes are zero (version 0, or k = 13 and version below 256) |
| Resets.ResetFinds | src/nvram/nvol3.c:209-238 | what the load after an interrupted reset finds, for any volume that stores a map, loaded or not: the map before the first erase, the map of sector two after it, nothing after the second; any number of loads may be cut short before, unless sector two is INITIALIZING and power failed after the first erase |
| Resets.ResetIsAtomic | src/nvram/nvol3.c:209-238 | so with any cut loads the store comes up with the map that was on flash or empty, if sector two holds the map or its header is not INITIALIZING; if both headers are VALID it may be the map of sector two |
| Resets.LoadedResetIsAtomic | src/nvram/nvol3.c:209-238 | a loaded store meets this condition: the old map or none |
| Resets.FirstEraseIsAtomic | src/nvram/nvol3.c:209-238 | for all headers: a reset cut after its first erase is atomic if and only if sector two has the same map or none (the records of an INITIALIZING sector two hold at least a key) |
| Remnants.CopiedKeys | src/nvram/nvol3.c:1510-1547 | when a swap has copied n records, the source still has the whole map, and the INITIALIZING destination exactly the first n keys of the walk |
| Remnants.ResetShowsAPart | src/nvram/nvol3.c:209-238 | the failing run: a set that swaps into sector two fails after n copies, the volume is reset instead of loaded, and the reset fails after its first erase; the next load shows exactly these n keys, which is neither the old map nor an empty one |
| Remnants.PartAfterFormat | src/nvram/nvol3.c:209-238 | it is reached from a format, for any two keys and any two different data for the first |
| Starts.ValidateFinds | src/nvram/nvol3.c:166-199 | nvol3_validate accepts a volume that stores a map if and only if the map is in sector one, or sector one is not INITIALIZING, or its header has the right version; otherwise it returns E_VERSION |
| Starts.ValidateMeans | src/nvram/nvol3.c:166-199 | for any two headers: nvol3_validate returns EFAIL exactly if a load would format the volume, which is if neither flag word is AAFFFFFF, AAAAFFFF or AAAAAAAA; otherwise the version in the first header that has one of them decides between EOK and E_VERSION |
| Starts.StartShows | src/registry/registry.c:105-111 | a start that completes shows the map of a valid volume, and leaves any other empty |
| Starts.StartOfBlank | src/registry/registry.c:105-111 | a start of a blank volume with any part of a format header ends empty and with the right version |
| Starts.StartsAreAtomic | src/registry/registry.c:105-111 | after any number of starts that are cut short, loads and resets, a start that completes shows the map that was on flash or none, and the map if the volume was valid |
| Starts.StartAfterFailure | src/nvram/nvol3.c:1502-1503 | power fails at any moment of a set or delete, and then of any number of starts: the store comes up with a map that the operation allows, except if and only if a swap out of sector two has written k header bytes of sector one with the flags complete and version bytes missing that are not zero (4 to 13 bytes); then the start resets the volume, although sector two still stores the whole map |
| Starts.HeaderIsWritten | src/nvram/nvol3.c:1502-1503 | every swap out of sector two passes these moments |
| Counters.RunsStayChecked | src/nvram/nvol3.c:1302-1325 | from a load on, no state of a run has a VALID record with a bad checksum in its active sector, wherever power fails |
| Counters.InUseIsValid | src/nvram/nvol3.c:1269-1329 | then inuse is the number of VALID records, those with a bad checksum (there are none) included |
| Durability.LoadKeepsNext | src/nvram/nvol3.c:1583-1745 | no moment of a load of a volume that stores a map takes or frees a slot, and next_idx is the first EMPTY slot of flash |
| Durability.DurableIsUnique | src/nvram/nvol3.c:1614-1742 | only one sector of a volume can hold the map that a load finds |
| FreeSlots.TornTakesOne | src/nvram/nvol3.c:354-443 | at every moment of a set or delete, a swap included, a load would find at most one slot more in use than before; only a set that finds its sector full can make it choose the other sector, and then at most one slot more is in use than there are keys |
| FreeSlots.CutTakesOne | src/nvram/nvol3.c:354-443 | so an operation that power cuts short, followed by any number of cut loads and a complete one, costs at most one free slot |
| Wear.RunsStayWithinLimit | src/nvram/nvol3.c:850-858 | the number of keys never exceeds max_records - 4, power failures or not, in runs from an exact index and a map within the limit whose deletes meet no older record of their key; Breaches.LimitIsPassed shows that the condition on deletes is needed |
| Wear.SlotsAreAccountedFor | src/nvram/nvol3.c:361-373 | over any run, without a condition on deletes or on the limit: the slots that the changes of sector have freed (max_records less the number of keys, each time) plus next_idx at the end are at most next_idx at the start plus the slots that completed sets have written plus one for each power failure, and exactly that without power failures |
| Wear.SwapsAre | src/nvram/nvol3.c:361-373 | a completed operation changes the active sector exactly if it is a set that finds the sector full |
| Wear.WearIsBounded | src/nvram/nvol3.c:361-373 | over any run whose states are within the limit: four times the number of changes of sector, those of interrupted sets included, plus next_idx at the end is at most next_idx at the start plus the slots that completed sets have written plus one for each power failure |
| Wear.SwapsApart | src/nvram/nvol3.c:361-373 | between any two changes of sector, with power failures anywhere, the slots written and the power failures are at least four together, if the states from the first to the second are within the limit |
| Erases.SwapsAlternate | src/nvram/nvol3.c:361-373 | the store leaves its two sectors in turn |
| Erases.DoneErases | src/nvram/nvol3.c:1557-1581 | a completed operation erases the sector that it leaves, if it leaves it, and nothing else |
| Erases.LoadsErase | src/nvram/nvol3.c:1614-1742 | the exact number of erases of cut loads and a complete one, of a volume that stores a map: none of its sector; if the map is in sector one, one of sector two for each load that got as far as a step; if it is in sector two, one of sector one unless that is EMPTY |
| Erases.CutErases | src/nvram/nvol3.c:354-443 | an operation that is cut short, with its loads: one erase of the sector that the store leaves, and of the sector that it does not come up in one for each load |
| Erases.ErasesAreBounded | src/nvram/nvol3.c:354-443 | over any run each sector is erased at most once for every time the store leaves it and once for every load, and exactly once for every time it is left if power never fails |
| Erases.ErasesOfRun | src/nvram/nvol3.c:354-443 | over runs within the limit: eight slots written or power failures pay for an erase of a sector, apart from those of loads |
| Shadows.ShadowSurvivesLoad | src/nvram/nvol3.c:1274-1327 | a load does not clear the older one of two VALID records of a key |
| Shadows.DeletedKeyReturns | src/nvram/nvol3.c:949-977 | a set that replaces data, cut between the commit of the new record and the clearing of the old one: after a load, a delete of the key and another load, the key is there again |
| Shadows.ComesBackAfterFormat | src/nvram/nvol3.c:949-977 | the same from a fresh format, for any key and any two different data |
| Overfull.LoadAfterSet | src/nvram/nvol3.c:850-858 | after a completed set a load is within the limit if and only if the set was refused, or swapped the sectors, or its key was already on flash, or the map on flash (not only the dictionary) was below the limit; flash is within the limit before the set |
| Overfull.InUseTells | src/nvram/nvol3.c:850-858 | a test a caller can make: if inuse is below the limit before the set, the next load is within the limit |
| Overfull.LoadAfterCut | src/nvram/nvol3.c:850-858 | for every image of a set, interrupted or not: the same condition, and if it fails the load is past the limit exactly if it finds the new key |
| Overfull.TwoKeysAtMost | src/nvram/nvol3.c:850-858 | over any run from an exact index of at most max_records - 2 keys, such as a format, whatever its deletes were: neither flash nor the shown map ever has more than max_records - 2 keys, two above the limit; the invariant is that there is an INVALID record for each key that is on flash and not in the dictionary |
| Overfull.WearOfAnyRun | src/nvram/nvol3.c:361-373 | so over all these runs two slots written or power failures are paid for each change of sector |
| Breaches.LimitIsPassed | src/nvram/nvol3.c:850-858 | this is sharp: from a format a run within the limit ends with a load that shows one key or two keys more than max_records - 4: set these keys, lose power while each is set again, delete them, and set max_records - 4 other keys; for any such keys, data and records, if max_records is at least 6 or 7 |
| ChecksumBound.ChecksumCatchesTears | src/nvram/nvol3.c:1215-1229 | a partly programmed body of at most 257 bytes has the right checksum exactly if it is complete |
| ChecksumBound.TearsAreCaughtUpTo257 | src/nvram/nvol3.c:1215-1229 | a body length is safe in this sense if and only if it is at most 257 |
| ChecksumBound.TornBodyIsCaught | src/nvram/nvol3.c:1215-1229 | a VALID record with an intact header and a partly programmed body of at most 257 bytes parses to the intended body or as corrupt |
| Dictionaries.SameWords | src/common/dictionary.c:223-239 | keys are equal exactly when their 32-bit words are |
| Dictionaries.WordSumOfOne | src/common/dictionary.c:209-220 | the hash sum of a key of one word is that word, low byte first |
| Dictionaries.WordSumAppends | src/common/dictionary.c:209-220 | the hash sum of a concatenation is the sum of the hash sums of its parts, modulo 2^32 |
| Dictionaries.Dictionary.KeyHash | src/common/dictionary.c:209-220 | the loop computes the bucket of the key: its word sum modulo the size of the table |
| Dictionaries.Dictionary.KeyCmp | src/common/dictionary.c:223-239 | the loop says whether the node has the key |
| Dictionaries.PushOk | src/common/dictionary.c:365-381 | a new node at the head of its chain keeps chains acyclic, disjoint and indexed, and adds one key to the map |
| Dictionaries.UnlinkOk | src/common/dictionary.c:254-275 | unlinking a node, first in its chain or not, keeps all that and removes exactly its key |
| Dictionaries.SetValueOk | src/nvram/nvol3.c:1523-1523 | writing to a value changes neither links nor keys |
| Dictionaries.WalkIsComplete | src/common/dictionary.c:466-489 | the walk over the chains meets every key exactly once |
| Dictionaries.PushedOrder | src/common/dictionary.c:371-376 | a key that is installed comes in the walk behind all keys of lower buckets and in front of all others, which stay in their order |
| Dictionaries.UnlinkedOrder | src/common/dictionary.c:254-275 | a key that is removed leaves the walk over the others as it was |
| Dictionaries.SortedWalkIsComplete | src/common/dictionary.c:491-549 | least key first and always the next one: a sorted walk yields every key once, strictly increasing, and as many results as there are keys |
| Dictionaries.Dictionary.constructor | src/common/dictionary.c:291-362 | a new dictionary is valid and empty |
| Dictionaries.Dictionary.Search | src/common/dictionary.c:254-266 | the chain walk finds the node of the key and its predecessor, or null exactly if the key is absent |
| Dictionaries.Dictionary.Lookup | src/common/dictionary.c:278-289 | the node of the key with its value, or null exactly if the key is absent |
| Dictionaries.Dictionary.InstallSize | src/common/dictionary.c:365-381 | the key is in the map afterwards, with its old value if it was there, and nothing else changes; a new key is put in front of its bucket in the walk, and the other keys keep their order |
| Dictionaries.Dictionary.Remove | src/common/dictionary.c:423-435 | reports whether the key was there and removes exactly it, from the map and from the walk |
| Dictionaries.Dictionary.RemoveAll | src/common/dictionary.c:437-457 | the map is empty, every node freed and the count zero |
| Dictionaries.Dictionary.SetValue | src/common/dictionary.c:600-605 | only the value of the node changes, and the walk is as before |
| Dictionaries.Dictionary.WalkOnce | src/common/dictionary.c:466-489 | an unsorted walk meets each key of the map once, at its node |
| Dictionaries.Dictionary.WalkByBucket | src/common/dictionary.c:466-489 | the word sums of the keys modulo the size of the table never descend in a walk |
| Dictionaries.Dictionary.CountIsSize | src/common/dictionary.c:607-611 | count is the number of keys and the number of nodes |
| Dictionaries.Dictionary.StepIt | src/common/dictionary.c:466-489 | one step yields the first of the nodes still to visit and leaves the rest, which depends on the chains only, so values may be rewritten during the walk |
| Dictionaries.Dictionary.ItFirst | src/common/dictionary.c:491-516 | unsorted: the first node of the walk; sorted: the least key, or null exactly if there is none |
| Dictionaries.Dictionary.ItNext | src/common/dictionary.c:519-549 | unsorted: the next node of the walk; sorted: the least key above the current one, or null exactly if it is the greatest |
| Dictionaries.Dictionary.SortedKeys | src/common/dictionary.c:491-549 | it_first followed by it_next gives every key once in strictly increasing order, count results in all |
| Layout.SlotWriteImages | src/drivers/ramdrv.c:83-85 | byte by byte, writing at a slot's address programs exactly that slot of the decoded volume |
| Layout.HeadWriteImages | src/drivers/ramdrv.c:83-85 | the same for a sector header |
| Layout.SectorErase | src/nvram/nvol3.c:1080-1086 | the driver's erase of a sector's range erases exactly that sector of the decoded volume |
| Layout.SlotFits | src/nvram/nvol3.c:90-95 | every slot lies behind the header, inside its sector and strictly below the last byte of the driver |
| Layout.DecodeShaped | src/nvram/nvol3.c:90-95 | whatever the bytes are, they decode to two sectors of the right shape |
| Bytes.HeadStands | src/nvram/nvol3.c:1029-1047 | the header of each sector is the 16 bytes at sector1_addr or sector2_addr |
| Bytes.SlotStands | src/nvram/nvol3.c:1143-1145 | slot i of each sector is the record_size bytes at the address of the sector + 32 + record_size * i |
| Bytes.StoreStands | src/nvram/nvol3.c:1049-1229 | a loaded store on the bytes of the memory: at the address of the active sector a VALID header with filler and inverted version; for each key AF AA, length, checksum, key and data at the slot that its index entry names; FF in every slot from next on and in the header and all slots of the other sector |
| Bytes.SetStands | src/nvram/nvol3.c:917-977 | a completed set of new data: its record stands in slot next of the active sector, reserved bytes FF, and the flags of the record it replaces are 00 00; if the sector was full it stands in the other sector behind one slot for each key |
| Bytes.DeleteStands | src/nvram/nvol3.c:418-443 | after a delete the flags of the record that the entry led to are 00 00 |
| Bytes.FlagsStand | src/nvram/nvol3.c:59-62 | a sector has each of the four flags exactly if the four bytes of that word stand at its address |
| Bytes.LoadPicks | src/nvram/nvol3.c:1631-1725 | a load goes on with the sector at sector1_addr if FF FF AA AA stands there, else with that at sector2_addr if it stands there |
| Media.Media.EraseSector | src/nvram/nvol3.c:1080-1086 | the volume and its image history advance by one sector erase; in the memory exactly the sector_size bytes from the address of the sector are FF, except the last byte of the driver |
| Media.Media.GetSectorVersion | src/nvram/nvol3.c:1030-1047 | version and flag bytes of the header |
| Media.Media.SetSectorFlags | src/nvram/nvol3.c:1049-1078 | the volume and its history advance by programming the header with the flags and the version; in the memory exactly the flags, eight bytes 55 and the inverted version are programmed at the address of the sector |
| Media.Media.ReadRecord | src/nvram/nvol3.c:1131-1170 | EFAIL past the end, else the status that the flags and the length give; on EOK the buffer holds the used bytes of the slot |
| Media.Media.WriteRecord | src/nvram/nvol3.c:1173-1194 | header and body of the buffer are programmed to the slot, in the memory at the address of the sector + 32 + record_size * idx; EFAIL past the end or for cleared flags, and then nothing is |
| Media.Media.SetRecordFlags | src/nvram/nvol3.c:1196-1213 | the two flag bytes are programmed to the slot, at the same address; EFAIL past the end, and then nothing is |
| Media.RecordValid | src/nvram/nvol3.c:1215-1229 | EOK exactly if the checksum field fits the body |
| Media.ByteSum | src/nvram/nvol3.c:1222-1224 | the loop computes the 16-bit byte sum |
| Nvol3.Nvol3.InsertLookupTable | src/nvram/nvol3.c:1232-1259 | the entry of the record's key leads to the slot, with the 16-bit length and the cached data if it is short enough |
| Nvol3.Nvol3.ScanRecord | src/nvram/nvol3.c:1302-1325 | a readable record enters the index if its checksum fits, else it is marked INVALID and counted |
| Nvol3.Nvol3.ConstructLookupTable | src/nvram/nvol3.c:1262-1337 | exactly the marks of corrupt records are programmed; counters and next slot are those of the scan, and so is the index if every record holds a key; the status compares the versions |
| Nvol3.Nvol3.MoveSector | src/nvram/nvol3.c:1340-1449 | exactly the commands of the order-preserving compaction, and the source stays as it is |
| Nvol3.Nvol3.Repair | src/nvram/nvol3.c:270-324 | exactly the commands of a repair; the destination is active and scanned |
| Nvol3.Nvol3.SwapRecord | src/nvram/nvol3.c:1511-1545 | one round of the swap's loop: the record is copied to the next slot and only this entry is rewritten |
| Nvol3.Nvol3.CopyIndexed | src/nvram/nvol3.c:1510-1548 | the loop copies the record of every entry once, in walk order, although it rewrites the entries meanwhile; its read never fails |
| Nvol3.Nvol3.SwapSectors | src/nvram/nvol3.c:1467-1581 | exactly the commands of a swap in the order of the dictionary's walk, and the RAM state of the scan; the move_sector fallback is not reached |
| Nvol3.Nvol3.SetHeader | src/nvram/nvol3.c:917-924 | the header that makes the buffer the record of its body; the body stays |
| Nvol3.Nvol3.AlreadySame | src/nvram/nvol3.c:866-885 | whether the slot holds the very record that is to be set |
| Nvol3.Nvol3.AppendRecord | src/nvram/nvol3.c:917-950 | exactly two writes: the record with flags NEW, then the flags VALID |
| Nvol3.Nvol3.StoreRecord | src/nvram/nvol3.c:834-990 | exactly the commands, the RAM state and the status of record_set; Capacity.SetStatus has the status in numbers |
| Nvol3.Nvol3.RecordSet | src/nvram/nvol3.c:354-378 | exactly the commands, the RAM state and the status of a set; the shown map is updated accordingly, and every image written on the way can only recover to a map that the set allows; new data stand at the address of the active sector + 32 + record_size * next_idx, or in the other sector if the active one was full, and the flags of the record they replace are cleared |
| Nvol3.Nvol3.RecordGet | src/nvram/nvol3.c:395-404 | EOK exactly for a key of the shown map, with its length, key and data behind the header of the buffer |
| Nvol3.Nvol3.RecordDelete | src/nvram/nvol3.c:418-443 | exactly the command, the RAM state and the status of a delete; the key leaves the shown map, both images on the way recover to a map that the delete allows, and the flags at the address of the slot of its entry are 00 00 |
| Nvol3.Nvol3.OnBytes | src/nvram/nvol3.c:1049-1229 | at any time between two operations the memory of the driver has the bytes of the shown map at the configured addresses |
| Nvol3.Nvol3.MountSectors | src/nvram/nvol3.c:1614-1742 | the sixteen branches carry out the plan for the two header flags, which Mounts.ValidIsUsed, Mounts.LoadRepairs and Mounts.LoadFormatsBlank describe without it |
| Nvol3.Nvol3.InitSectors | src/nvram/nvol3.c:1583-1745 | exactly the commands of a load, on the sector that the plan makes active |
| Nvol3.Nvol3.Load | src/nvram/nvol3.c:106-156 | from whatever is on flash: exactly the commands of a load, one VALID and one empty sector; if the volume stores a map, this map is shown with an exact index, and every image written on the way stores it as well; in the memory FF FF AA AA stands at the address of the active sector and FF FF FF FF at the other one, and the sector at sector1_addr is used if FF FF AA AA stood there, else that at sector2_addr if it stood there |
| Nvol3.Nvol3.Reset | src/nvram/nvol3.c:209-238 | from whatever is on flash: exactly the commands of a reset, and an empty map in freshly formatted flash, exact and clean; in the memory the whole VALID header stands at sector1_addr and 16 bytes FF at sector2_addr |
| Nvol3.Nvol3.Validate | src/nvram/nvol3.c:166-199 | the status of nvol3_validate for the two headers on flash; Starts.ValidateMeans says what it is for each pair of headers |
| Nvol3.Nvol3.Start | src/registry/registry.c:105-111 | exactly the commands of a load of a valid volume and of a reset of any other; a volume that stores a map shows it if it is valid and is empty if not |
| Nvol3.PowerUp | src/nvram/nvol3.c:106-156 | a new instance over a memory that holds any image of an interrupted operation comes up exact, with a map that the operation allows, and every image it writes on the way is again one from which a new instance does so |
| SpiFlash.Chip.PageProgram | src/drivers/spiflash.c:682-683 | the chip ANDs the bytes into one page and wraps around at its end |
| SpiFlash.ProgramInPage | src/drivers/spiflash.c:668-668 | a page program that ends in its page is a plain AND write |
| SpiFlash.ProgramPastPage | src/drivers/spiflash.c:668-668 | one that passes the end of its page by a byte loses that byte and damages the first byte of the page |
| SpiFlash.SpiDrv.Write | src/drivers/spiflash.c:663-706 | for every address and length the whole range is ANDed with the data |
| SpiFlash.SpiDrv.IsDirty | src/drivers/spiflash.c:480-529 | whether a byte of the range is not erased; up to three bytes at the end of a range that is no multiple of four go unseen |
| SpiFlash.SpiDrv.SectorEraseStart | src/drivers/spiflash.c:400-474 | the sector of the address is erased, although the command is sent twice |
| SpiFlash.SpiDrv.SectorErase | src/drivers/spiflash.c:540-589 | the effect of the windowed, skipping erase; from an aligned start the bytes are those that erasing every sector leaves |
| SpiFlash.EraseEachIs | src/drivers/spiflash.c:552-572 | erasing every sector of an aligned range sets exactly the bytes of the range to 0xFF |
| SpiFlash.SkippingIsSound | src/drivers/spiflash.c:552-572 | skipping clean sectors agrees with erasing all of them, for every content, if and only if the start is sector-aligned |
| SpiFlash.ErasesLikeRam | src/drivers/spiflash.c:540-589 | below the last byte of the memory an aligned erase leaves what the RAM driver leaves |
| StrSub.PlainText | src/common/strsub.c:94-127 | characters that are neither escape nor an opening token stand for themselves, whatever follows |
| StrSub.PlainMeans | src/common/strsub.c:96-121 | a character is plain exactly if it is neither zero nor the escape nor the open token of a pair with handlers |
| StrSub.ClosedWord | src/common/strsub.c:101-173 | an open token of a pair with handlers, a word and the closing token stand for what the handlers of the first such pair make of the word, whatever follows |
| StrSub.OpenWord | src/common/strsub.c:101-173 | a word that is not closed stands for nothing |
| StrSub.EscapedText | src/common/strsub.c:96-98 | the escape takes the next character as it is, and stands for nothing in front of the end |
| StrSub.FirstKnows | src/common/strsub.c:143-168 | the text is that of the first handler that knows the word, or the word with its tokens if none does |
| StrSub.QuoteRoundTrip | src/common/strsub.c:96-98 | escaping every special character makes the parser give any text back |
| StrSub.WordText | src/common/strsub.c:137-173 | a closed word stands for what the first handler that knows it returns, else for itself with its tokens |
| StrSub.Sink.Emit | src/common/strsub.c:198-216 | stores as much of the text as fits in front of the last byte and returns that many, or -1 once it is full |
| StrSub.Instance.Install | src/common/strsub.c:32-48 | the handler becomes the first of its token; a token out of range is refused |
| StrSub.Instance.Uninstall | src/common/strsub.c:50-74 | the handler is removed from the list, if it is there |
| StrSub.InstallUninstall | src/common/strsub.c:32-74 | uninstalling a handler undoes its installation, whatever handlers have been installed before and since |
| StrSub.Instance.Replace | src/common/strsub.c:143-168 | the handlers are asked in order; an unknown word is emitted with its tokens; once the buffer is full nothing changes |
| StrSub.Instance.Parse | src/common/strsub.c:76-189 | emits the meaning of the first len characters and a zero, as far as they fit |
| StrSub.Instance.ParseStringTo | src/common/strsub.c:239-254 | writes only inside the buffer, stores a prefix of the meaning and returns min(its length, dst_len - 1); the terminating zero is written exactly if there is room behind the text |
| StrSub.Instance.GetDstLength | src/common/strsub.c:218-237 | the length of the whole meaning plus one |

## Left out

- Errors of the flash driver, failing allocation and the E_TIMEOUT branches: the driver and malloc succeed, so the error paths of record_set, move_sector and swap_sectors behind them are not there.
- Partial erases: the code takes an EMPTY header to mean an erased sector, so an erase is one step.
- nvol3_unload, nvol3_delete, record status and length queries and the record and entry iterators: thin wrappers, or (nvol3_entry_data, nvol3_entry_save) functions that hand out pointers into the RAM cache.
- The write callback, which always returns EOK, transactions, which have no code, and all log messages, among them the read-back checks of set_sector_flags and nvol3_reset that only log.
- String and 16-bit keys of the dictionary, dictionary_lookup, dictionary_replace, dictionary_it_at, dictionary_it_remove and dictionary_it_move, and the callback of dictionary_remove_all.
- Hash table nodes as heap objects: the nodes are records in an explicit map from addresses, with address zero as the null pointer, and allocation picks an address that is not in use; keys and values are values in the node, not bytes behind it.
- 32-bit wrap-around of addresses and of the in-use, invalid and error counters: addresses are those of a memory that fits, and the counters stay below the number of slots.
- Nvol3.Nvol3.ConstructLookupTable: for a record shorter than a key, which the store never writes, the source reads key bytes left over in its buffer; counters and commands are exact then as well, but nothing is said about the index.
- Nvol3.Nvol3.RecordSet: the caller's record holds at least a key; the source would read a key past a shorter one.
- Dictionaries.Dictionary.ItFirst: a sorted walk compares keys only and needs a strict total order on them; the index field that the source leaves uninitialised there is an arbitrary value.
- Wear.WearIsBounded: counts changes of the active sector; when power fails between the commit of a swap into sector two and the erase of sector one, the load takes sector one again, and such a swap is part of what the power failure costs. Its erases are counted by Erases.ErasesAreBounded.
- Starts.StartsAreAtomic: the start is that of registry_start; strtab_start loads once more after a reset.
- Resets.ResetFinds: after the first erase of a reset, with sector two INITIALIZING, only the next load is described; loads that are cut short there would repair from a repair that is not complete.
- SpiFlash.SpiDrv.Write: bus acquisition, write enable, status polling and their timeouts are hardware; the range lies inside the chip.
- StrSub.Instance.Parse: handlers are partial functions that make one callback and return its result, the callback is that of the module, null strings are not modelled, tokens are ASCII, and lengths fit the 32-bit offset.
- The registry, the shell, the heap and all other drivers.
