# Adaboot in Dafny

A model of the parts of Adaboot (a fork of MCUboot) where data is moved, parsed or planned, and proofs about it. Every
module is plain Dafny 4.11; `dafny verify dfyconfig.toml` checks them all.

The model follows the source's own form. Functions that update fields or buffers are methods on classes and arrays, with
loops where the source loops, each proved against a specification function; what the system promises is then proved about
those functions, over every run, every interleaving or every power failure.

| part | modules | central results |
|---|---|---|
| UF2 receiver | `Uf2Format`, `Uf2Tags`, `Uf2Routing`, `Uf2Bitmap`, `Uf2Receiver`, `Uf2Runs`, `Uf2Delivery` | what flash holds after any run of blocks; complete exactly when all are in |
| UF2 files | `Uf2Convert`, `Uf2ConvertBack`, `Uf2ConvertMeaning`, `GhostFat`, `FatHost`, `CurrentUf2` | host file to flash; flash to FAT16 disk to file and back to flash |
| Upgrade by swapping | `SwapEngine`, `SwapOffset`, `SwapRevert`, `SwapMove` | any number of power failures; the exact condition under which an offset upgrade is safe |
| Serial input | `SerialPool`, `SerialPorts` | buffers and byte order under every interleaving of interrupt and reader |
| Signed images | `Tlv`, `ImageFormat`, `ImageWriter`, `ImageReaders`, `ImageVerify`, `ImageSign` | one writer and three readers agree |
| Partition planner | `Partitions`, `PlanScratch`, `PlanCarried`, `PlanPredefined`, `PlanLayout`, `PlanReslot`, `PlanFilesystem`, `PlanSplit`, `PlanSplitAgain` | layouts right exactly when devices are large enough; fixed points and when they fail |
| Smaller algorithms | `SectorDecrypt`, `ZcborBulk`, `SharedData` | refinement of a simple form; append-only log |

`Bytes` and `Options` hold little-endian words, rounding and the option type.

## How the outside world appears

- Flash callbacks, retention writes and similar calls return an arbitrary code: they fail without effect or do what they say.
  A call of the receiver is a relation between states, and a run is a sequence of states related by it.
- A power failure is a boot with a budget of flash operations; the copy it interrupts leaves arbitrary contents in its
  destination sector, and a status byte is written or not.
- Hash, signature and cipher are arbitrary functions. A key pair is known only to accept what it signs.
- 32-bit wrap-around is written out where the C code can meet it. The receiver's configuration has base plus size, size plus
  erase size and size plus 256 below 2^32, and write blocks that divide 256 and the erase size; the flash driver refuses
  unaligned writes.
- Devicetree is a list of nodes or of partitions; a label names one node.

## What the source does differently from what one would expect

- An upgrade by swap-using-offset is not always safe. While only the last sector is left, the primary header is looked for
  where the new image already is (the comparison with the last index is off by one), so the used size of the old image is
  mistaken. `SwapOffset.ForwardSurvives` and `SwapOffset.ForwardLoses` give the exact condition, `Safe`.
- With a filesystem cap, planning again from the planner's own output is a fixed point only when the shared slot size is
  within the 2 MB cap; above it two layouts alternate (`PlanFilesystem.PlanTwice`, `CapAlternates`, `AlternatingBoard`).
- In-place decryption counts a length from the start of the sector: it is right exactly under `SectorDecrypt.Aligned`.
- Rounding a write up to the write block carries board-id bytes, not zeros as its comment says, behind the read-back range;
  `CurrentUf2.RoundedTailZeroIff` says exactly when they are zeros.
- Converting from UF2 means to skip a block with a bad magic, but building the message raises, so the conversion fails
  (`Uf2ConvertMeaning.ZeroSectorRaises`); `Uf2ConvertMeaning.ConvertsIff` says exactly which files convert.
- Re-sizing slots on a predefined layout can lay a slot over an upstream partition, or past the end of the device where
  there is no slot 1 (`PlanLayout.ScratchBoard`, `OneSlotBoard`); `PlanDisjointIff` and `PlanInsideIff` say exactly when.
- The tag scanner's first index wraps for payload sizes of 2^32 - 4 and more (`Uf2Tags.InFieldIff`); the state is unaffected.
- `docs/uf2.md` says a family mismatch matters only when both sides name a family; the code also ignores a block without
  the flag when the bootloader has one (`Uf2Routing.FamilyRulesDiffer`).
- The FAT has 64 sectors, so CURRENT.UF2 has a chain only while 4 plus its blocks is at most 16384.
- `imgtool` reserves enough for the bootloader's trailer in offset mode only if sectors times write size reach the alignment
  (`ImageWriter.TrailerCovers`), and sets `image_ok` where the bootloader looks only in slots of whole alignment units
  (`ImageWriter.ImageOkAgrees`).
- Shared-data types out of range are never noticed as duplicates (`SharedData.SameKindIff`), and an entry whose header write
  failed is committed by the next add that succeeds.

## Model

| member | source | states |
|---|---|---|
| `Uf2Runs.FlashAfterRun` | boot/boot_uf2/src/boot_uf2.c:126-335 | after any run of calls from `uf2_init`, with any failures, each byte of each region is: original at or above the frontier, else what the last accepted block covering it wrote, else erased; so no erase ever undoes a write; the frontier of a region that no block was meant for is still zero |
| `Uf2Runs.UntargetedKeeps` | boot/boot_uf2/src/boot_uf2.c:126-335 | a region that no block of the run was meant for keeps all its original contents |
| `Uf2Runs.StepFrontier` | boot/boot_uf2/src/boot_uf2.c:311-316 | a call moves no frontier but that of the region its block is meant for |
| `Uf2Runs.WrittenBelowFrontier` | boot/boot_uf2/src/boot_uf2.c:126-156 | whatever was written lies below its region's erase frontier |
| `Uf2Runs.RunInv` | boot/boot_uf2/src/boot_uf2.c:229-335 | every reachable state keeps the invariant: frontiers on sector boundaries within the region, received numbers below the announced count, the count within the limit |
| `Uf2Runs.StepByte` | boot/boot_uf2/src/boot_uf2.c:295-335 | one call changes a byte only by writing the block it accepts over it or by moving the frontier past it; frontiers only grow, and only the one of the region the block is meant for moves |
| `Uf2Runs.StoredByte` | boot/boot_uf2/src/boot_uf2.c:311-332 | the same for the erase-and-write part, with a write that may be rounded up; the other regions' frontiers stay |
| `Uf2Runs.WriteWithinGoal` | boot/zephyr/uf2_disk.c:66-107 | a write rounded up to whole write blocks ends within what was erased for it and within the region |
| `Uf2Runs.RoundingKeepsClear` | boot/zephyr/uf2_disk.c:66-107 | two blocks on write-block boundaries whose payloads do not overlap: rounding one up never touches a byte of the other's payload |
| `Uf2Runs.TakenAligned` | boot/zephyr/uf2_disk.c:91-106 | a block is accepted only at a write-block boundary of the region it is meant for |
| `Uf2Runs.ReceivedAreTaken` | boot/boot_uf2/src/boot_uf2.c:296-334 | the marked numbers are exactly those of the accepted blocks, which all announce the same count |
| `Uf2Runs.CompleteIffAllTaken` | boot/boot_uf2/src/boot_uf2.c:325-334 | complete holds exactly when every number below the announced count has been accepted |
| `Uf2Runs.CountedBytes` | boot/zephyr/uf2_disk.c:101-104 | the byte counter of a region is the number of payload bytes accepted for it, modulo 2^32 |
| `Uf2Runs.PrimaryWrittenIff` | boot/zephyr/uf2_disk.c:459-462 | the upgrade is marked pending exactly when some block was accepted for the primary region, for every block limit below 2^24 |
| `Uf2Runs.FileArrives` | boot/boot_uf2/src/boot_uf2.c:229-335 | for blocks of one file with payloads that do not overlap, in any order, with duplicates, failures and blocks the receiver does not want: complete exactly when each block was once answered with 0, and then flash holds every payload |
| `Uf2Runs.ByteStays` | boot/boot_uf2/src/boot_uf2.c:311-332 | once a block of the file is in, its payload stays in flash for good |
| `Uf2Runs.ReceivedIffAnswered` | boot/boot_uf2/src/boot_uf2.c:296-334 | a block of the file is marked exactly when it was once answered with 0 |
| `Uf2Receiver.NextKeepsInv` | boot/boot_uf2/src/boot_uf2.c:229-335 | every call, whatever its block and return code, keeps the invariant |
| `Uf2Receiver.StartInv` | boot/boot_uf2/src/boot_uf2.c:10-13 | the state after `uf2_init` is in the invariant |
| `Uf2Receiver.Receiver.constructor` | boot/boot_uf2/src/boot_uf2.c:10-13 | the object starts in the start state, with a bitmap of (max_blocks + 7) / 8 bytes |
| `Uf2Receiver.Receiver.ProcessBlock` | boot/boot_uf2/src/boot_uf2.c:229-335 | the call refines the step relation over the object's view: block number set, count, frontiers, flash |
| `Uf2Receiver.Receiver.EraseUpTo` | boot/boot_uf2/src/boot_uf2.c:126-156 | erases exactly from the old to the new frontier, sector by sector, and reaches the goal when no erase fails |
| `Uf2Receiver.Receiver.FlashErase` | boot/zephyr/uf2_disk.c:109-114 | erases the range or fails without effect |
| `Uf2Receiver.Receiver.FlashWrite` | boot/zephyr/uf2_disk.c:66-107 | programs the rounded-up length at an aligned offset and counts the payload bytes, or fails without effect |
| `Uf2Receiver.Receiver.MarkReceived` | boot/boot_uf2/src/boot_uf2.c:325-332 | adds one number to the received set and keeps count and completion in step with the bitmap |
| `Uf2Receiver.Receiver.PrimaryWritten` | boot/zephyr/uf2_disk.c:459-462 | says whether the primary region has got bytes |
| `Uf2Receiver.GoalOnSector` | boot/boot_uf2/src/boot_uf2.c:126-156 | the erase goal is a sector boundary or the region end and covers the payload |
| `Uf2Receiver.FullWhenCounted` | boot/boot_uf2/src/boot_uf2.c:327-332 | a set of numbers below n has n members exactly when it has them all, so counting decides completion |
| `Uf2Bitmap.SetBit` | boot/boot_uf2/src/boot_uf2.c:303-327 | or-ing the mask into the byte adds exactly that number to the set the bitmap stands for |
| `Uf2Bitmap.MarkAdds` | boot/boot_uf2/src/boot_uf2.c:303-327 | the same on values: no other number's bit changes |
| `Uf2Routing.ScreenDecides` | boot/boot_uf2/src/boot_uf2.c:229-294 | a block is ignored, rejected or meant for a region: each outcome exactly under its own condition on magic, family, board, number, payload size, route and room |
| `Uf2Routing.FamilyIgnores` | boot/boot_uf2/src/boot_uf2.c:246-252 | a well-formed block for this board is ignored for its family exactly when the bootloader has one and the block does not carry it, flag and number |
| `Uf2Routing.FamilyRulesDiffer` | docs/uf2.md:165-168 | the code and the documented rule differ exactly on blocks without a flag or with family 0, given to a bootloader that has a family |
| `Uf2Routing.UnflaggedBlockIgnored` | boot/boot_uf2/src/boot_uf2.c:246-252 | an unflagged block is such a block: ignored, though the documented rule accepts it |
| `Uf2Routing.RouteBlock` | boot/boot_uf2/src/boot_uf2.c:192-227 | with a partition tag, the region of that name if it exists and contains the address; without one, the first address-routed region at the address; refused otherwise, also for malformed tags |
| `Uf2Routing.FindRegion` | boot/boot_uf2/src/boot_uf2.c:100-118 | the loop finds the first address-routed region with the address |
| `Uf2Routing.FindRegionByLabel` | boot/boot_uf2/src/boot_uf2.c:162-183 | the loop finds the first region of the name |
| `Uf2Routing.RegionTable.Add` | boot/zephyr/uf2_disk.c:243-342 | an area is added exactly when there is room, it opens, and it overlaps no address-routed region if it is one; otherwise nothing changes |
| `Uf2Routing.RegionTable.constructor` | boot/zephyr/uf2_disk.c:39-52 | the table starts empty and disjoint |
| `Uf2Routing.OnlyRegionAt` | boot/zephyr/uf2_disk.c:300-321 | in a table built that way at most one region answers an address |
| `Uf2Routing.RoutingIgnoresOrder` | boot/zephyr/uf2_disk.c:300-321 | any reordering of the table routes every untagged block to the same region |
| `Uf2Tags.FindExtTag` | boot/boot_uf2/src/boot_uf2.c:28-65 | the scanning loop gives the first record of the type, absent, or malformed, as a parse of the whole record list does |
| `Uf2Tags.LookupSkips` | boot/boot_uf2/src/boot_uf2.c:50-62 | a record of another type does not decide a lookup |
| `Uf2Tags.InFieldIff` | boot/boot_uf2/src/boot_uf2.c:28-65 | the scanner stays inside the data field exactly when the payload size is below 2^32 - 4 |
| `Uf2Tags.RecordFields` | tools/uf2conv.py:141-157 | a packed spec is a record whose size byte, type and payload read back, wherever it stands |
| `Uf2Tags.BuildExtensionBlob` | tools/uf2conv.py:160-170 | the loop concatenates the records and a terminator, or fails exactly when some spec does not pack |
| `Uf2Tags.PackedListParses` | tools/uf2conv.py:141-170 | the bootloader's parse of a packed list, anywhere in the field, is that list |
| `Uf2Tags.TagRoundTrip` | boot/boot_uf2/src/boot_uf2.c:28-65 | for every list of specs that fits, a lookup finds the first spec of the type or nothing, and never reports malformed |
| `Uf2Format.OverlayOfLayout` | boot/boot_uf2/include/boot_uf2/boot_uf2.h:78-89 | 512 bytes laid out field by field read back as that block |
| `Uf2Convert.HostFileArrives` | tools/uf2conv.py:174-206 | for any non-empty content, the tool's blocks delivered in any order with duplicates: complete exactly when each was once answered with 0, and then the range is the content zero-padded to 256 |
| `Uf2Delivery.HostFileDelivered` | tools/uf2conv.py:174-206 | in every run in which no flash callback failed, delivering every block in any order, with repetitions and turned-away traffic, ends complete with the padded content in place |
| `Uf2Delivery.FileDelivered` | boot/boot_uf2/src/boot_uf2.c:229-335 | the same for any file: without a failed callback, delivered is complete |
| `Uf2Delivery.HostRunExists` | boot/boot_uf2/src/boot_uf2.c:229-335 | such a run exists for every order of delivery when the range starts on a write block |
| `Uf2Delivery.UnalignedNeverArrives` | boot/zephyr/uf2_disk.c:66-107 | a range that does not start on a write block never arrives: no block is ever accepted |
| `Uf2Delivery.SmoothRun` | boot/boot_uf2/src/boot_uf2.c:229-335 | for any file whose writes are whole write blocks, any order of delivery has a run in which every call returns 0 |
| `Uf2Delivery.SmoothStep` | boot/boot_uf2/src/boot_uf2.c:296-335 | in any reachable state a wanted block of the announced count can be answered with 0 |
| `Uf2Convert.ConvertToUf2` | tools/uf2conv.py:174-206 | the loop emits exactly the job's blocks, 512 bytes each, or raises exactly when the tags or addresses do not fit |
| `Uf2Convert.EncodeBlock` | tools/uf2conv.py:190-205 | one block's bytes read as the block the receiver should see |
| `Uf2Convert.JobScreened` | boot/boot_uf2/src/boot_uf2.c:229-294 | a bootloader of the same family, board and partition wants every block, at its own offset |
| `Uf2Convert.JobIsFile` | tools/uf2conv.py:174-206 | the blocks are one consistent file for that region: numbered in order and disjoint |
| `Uf2Convert.FlashIsPadded` | tools/uf2conv.py:190-203 | payloads in place make up the padded content |
| `Uf2ConvertBack.ToAndBack` | tools/uf2conv.py:56-206 | converting to UF2 and back gives the zero-padded content and the start address, for every content, address, family and tags that fit |
| `Uf2ConvertBack.ConvertFromUf2` | tools/uf2conv.py:56-128 | the loop over the file's blocks is the fold of the block step, errors included |
| `Uf2ConvertMeaning.ConvertsIff` | tools/uf2conv.py:66-100 | a file converts exactly when every block has the magic and every block not skipped has at most 476 bytes and begins a stretch or follows after a gap of whole words up to 10 MB |
| `Uf2ConvertMeaning.ConvertsToImage` | tools/uf2conv.py:66-127 | a file of one stretch that converts gives the memory its blocks describe: each payload at its address, zeros between, from the first address on |
| `Uf2ConvertMeaning.ZeroSectorRaises` | tools/uf2conv.py:68-72 | any file with a zero sector behind it fails to convert, though the code means to skip such a block |
| `Uf2ConvertBack.GaplessConverts` | tools/uf2conv.py:66-127 | any file of one family without gaps converts to its payloads put together |
| `Uf2ConvertBack.CurrentUf2Converts` | boot/boot_uf2/src/ghostfat.c:299-350 | CURRENT.UF2 converts to exactly the flash it was made from, tags and short last block included |
| `CurrentUf2.CurrentUf2RoundTrip` | boot/boot_uf2/src/ghostfat.c:299-350 | feeding CURRENT.UF2 back in any order with duplicates rebuilds exactly the flash it was read from, short last block included |
| `CurrentUf2.CurrentScreened` | boot/boot_uf2/src/boot_uf2.c:229-294 | the receiver wants a block of CURRENT.UF2 exactly when no board id is configured or the emitter's guard let the record in |
| `CurrentUf2.TagIsPacked` | boot/boot_uf2/src/ghostfat.c:326-346 | the emitter's record and the zeros behind it are what the host tool packs |
| `CurrentUf2.CurrentTags` | boot/boot_uf2/src/ghostfat.c:326-346 | looking for any other tag in such a block always reaches the terminator: absent, never malformed |
| `CurrentUf2.FitsAllIffFirst` | boot/boot_uf2/src/ghostfat.c:332-346 | the guard holds for all blocks exactly when it holds for the first, that is for board ids of at most 212 bytes |
| `CurrentUf2.CurrentIsFile` | boot/boot_uf2/src/ghostfat.c:299-350 | the blocks are one consistent file for the region |
| `CurrentUf2.RoundedTailIsTag` | boot/zephyr/uf2_disk.c:81-99 | with a board-id record and rounding, the byte written behind a short last payload is the record's length byte, not zero |
| `CurrentUf2.RoundedTailZeroIff` | boot/zephyr/uf2_disk.c:81-99 | the bytes a write adds behind a payload are all zero exactly when the block has no board-id record or nothing is rounded: whole write blocks, or rounding would pass the end of the area |
| `FatHost.CurrentUf2OnDisk` | boot/boot_uf2/src/ghostfat.c:20-55 | a FAT16 host, reading any disk served by the read function through either table copy: the directory lists three files; the chain of CURRENT.UF2 exists exactly when 4 plus its blocks is at most 64 * 256, is the clusters 4, 5, ..., shares none with the others, and its sectors are blocks 0, 1, ... |
| `FatHost.TableHolds` | boot/boot_uf2/src/ghostfat.c:167-201 | both copies of the table hold the same entry for every cluster they have |
| `FatHost.ChainFrom` | boot/boot_uf2/src/ghostfat.c:167-201 | following the table from any cluster of the file visits the rest of it in order and stops |
| `FatHost.DirectoryHolds` | boot/boot_uf2/src/ghostfat.c:257-291 | a search of the root directory finds each file with its first cluster and size |
| `FatHost.BlockSector` | boot/boot_uf2/src/ghostfat.c:359-428 | the sector of the file's cluster i is UF2 block i |
| `GhostFat.BuildCurrentUf2Block` | boot/boot_uf2/src/ghostfat.c:299-350 | the buffer holds the block: header, flash bytes, board-id record when it fits, zeros, end magic |
| `GhostFat.BuildFatSector` | boot/boot_uf2/src/ghostfat.c:167-201 | the sector holds its 256 table entries, little-endian |
| `GhostFat.BuildRootDirSector` | boot/boot_uf2/src/ghostfat.c:257-291 | the first sector holds the volume label and three entries, the others nothing |
| `GhostFat.BuildDirEntry` | boot/boot_uf2/src/ghostfat.c:206-214 | the 32 bytes of an entry at its place, the rest still zero |
| `GhostFat.BuildBootSector` | boot/boot_uf2/src/ghostfat.c:76-159 | the sector holds the BIOS parameter block a host needs, and the signature |
| `GhostFat.ReadSector` | boot/boot_uf2/src/ghostfat.c:359-428 | every sector number gives boot, table, directory, text, block or zero sector |
| `GhostFat.WriteSector` | boot/boot_uf2/src/ghostfat.c:430-452 | sectors below the data area and sectors without the magic are taken silently; all others are one call of the receiver |
| `SwapOffset.ForwardSurvives` | boot/bootutil/src/swap_offset.c:592-718 | a safe upgrade survives any sequence of boots cut anywhere: the next boot with power enough finishes with both images whole and exchanged |
| `SwapOffset.ForwardLoses` | boot/bootutil/src/swap_offset.c:102-164 | for every unsafe upgrade and every harmful content of the cut sector (no header, or anything but the old last sector) there is a power failure after which no sequence of boots ever has both images exchanged |
| `SwapOffset.SingleSectorLoss` | boot/bootutil/src/swap_offset.c:143-152 | a single-sector swap cut in its second copy, with any content without a header, leaves none to resume from |
| `SwapOffset.LastSectorLoss` | boot/bootutil/src/swap_offset.c:143-152 | cut in the first copy of the last sector, with any content but the right one, the next boot takes the new image's size for the old one's |
| `SwapOffset.LostForGood` | boot/bootutil/src/swap_offset.c:430-486 | from there the old image's last sector is never copied, whatever happens later |
| `SwapOffset.UnsafeUpgrade` | boot/bootutil/src/swap_offset.c:143-152 | a three-sector image upgraded to a one-sector image is unsafe: an erased last sector is enough to lose it |
| `SwapOffset.ForwardHeaders` | boot/bootutil/src/swap_offset.c:102-164 | at any point of a safe upgrade both headers are found and no sector that matters is skipped |
| `SwapOffset.ForwardSound` | boot/bootutil/src/swap_offset.c:430-486 | every step of the plan keeps the invariant, cut or not |
| `SwapOffset.ForwardBootKeeps` | boot/bootutil/src/swap_offset.c:592-718 | one more boot, cut or not, stays in the invariant and does not go back |
| `SwapOffset.FindLastIdx` | boot/bootutil/src/swap_offset.c:59-78 | the loop finds the least index whose sectors hold both images |
| `SwapOffset.SwapSectors` | boot/bootutil/src/swap_offset.c:430-486 | does the two halves of a sector, the first unless the status says it is done |
| `SwapOffset.SwapRun` | boot/bootutil/src/swap_offset.c:592-718 | the loop, resumed anywhere, refines the plan from that step |
| `SwapOffset.Boot` | boot/bootutil/src/swap_offset.c:223-291 | a boot reads the status, finds the headers and runs what is left of the plan, as the boot function of the proofs says |
| `SwapEngine.ReadStatusBytes` | boot/bootutil/src/swap_offset.c:223-291 | the scan finds the last written status entry |
| `SwapEngine.Survives` | boot/bootutil/src/swap_offset.c:592-718 | for any plan whose steps keep an invariant, wherever the power goes the flash is in the invariant at some step reached, and at the last with power left |
| `SwapEngine.CutAt` | boot/bootutil/src/swap_offset.c:430-486 | any copy of a plan can be the one a power failure hits |
| `SwapRevert.RevertSurvives` | boot/bootutil/src/swap_offset.c:683-706 | every revert survives any sequence of boots cut anywhere |
| `SwapRevert.RevertUndoesUpgrade` | boot/bootutil/src/swap_offset.c:592-718 | a safe upgrade followed by a revert, both cut anywhere any number of times, puts both images back sector by sector |
| `SwapRevert.RevertHeaders` | boot/bootutil/src/swap_offset.c:102-164 | at any point of a revert both headers are found and are the right ones |
| `SwapRevert.RevertSound` | boot/bootutil/src/swap_offset.c:488-547 | every step of the revert keeps the invariant, cut or not |
| `SwapRevert.SwapSectorsRevert` | boot/bootutil/src/swap_offset.c:488-547 | does the two halves of a sector of the revert |
| `SwapRevert.RevertRun` | boot/bootutil/src/swap_offset.c:683-706 | the loop, resumed anywhere, refines the plan from that step |
| `SwapMove.MoveSurvives` | boot/bootutil/src/swap_move.c:498-570 | every swap using move survives any sequence of boots cut anywhere, with both images exchanged at the end |
| `SwapMove.MoveHeaders` | boot/bootutil/src/swap_move.c:71-135 | at any point the status leads back to the step in hand and both headers are where they are looked for |
| `SwapMove.MoveSound` | boot/bootutil/src/swap_move.c:362-447 | every step, moving up or exchanging, keeps the invariant, cut or not |
| `SwapMove.SwapRun` | boot/bootutil/src/swap_move.c:498-570 | the two loops, resumed anywhere, refine the plan from that step |
| `SwapMove.MoveLoop` | boot/bootutil/src/swap_move.c:550-559 | the move loop does the rest of the moving part |
| `SwapMove.SwapLoop` | boot/bootutil/src/swap_move.c:561-569 | the swap loop starts over and skips what is exchanged |
| `SwapMove.MoveSectorUp` | boot/bootutil/src/swap_move.c:362-407 | copies one sector up and marks it |
| `SwapMove.SwapHalf` | boot/bootutil/src/swap_move.c:409-447 | copies one half of an exchange and marks it |
| `SerialPool.InitValid` | boot/zephyr/serial_adapter.c:155-188 | after initialisation every buffer is in exactly one place |
| `SerialPool.TakeKeeps` | boot/zephyr/serial_adapter.c:211-221 | taking a buffer keeps each buffer in exactly one place and does not touch the one being read |
| `SerialPool.StoreKeeps` | boot/zephyr/serial_adapter.c:222-262 | storing bytes keeps the partition, the queued lines and the buffer being read |
| `SerialPool.PublishKeeps` | boot/zephyr/serial_adapter.c:262-283 | publishing appends the current line to the queued lines and keeps the partition |
| `SerialPool.FetchKeeps` | boot/zephyr/serial_adapter.c:287-315 | the reader's locked section returns its buffer and takes the oldest line; the guard against a double return never bites |
| `SerialPool.Apart` | boot/zephyr/serial_adapter.c:190-315 | a buffer the interrupt may write is neither queued nor being read |
| `SerialPorts.DriveRaw` | boot/zephyr/serial_adapter.c:96-126 | under every interleaving of interrupts and reader steps, while no shortage lost a byte, the raw reads make up a prefix of the received bytes |
| `SerialPorts.DriveLines` | boot/zephyr/serial_adapter.c:128-153 | under every interleaving and every splitting into batches, while no shortage lost a byte, the lines read are a prefix of the lines of the byte stream |
| `SerialPorts.ReadIsPrefix` | boot/zephyr/serial_adapter.c:96-126 | in every state what was read is a prefix of what was stored |
| `SerialPorts.LinesArePrefix` | boot/zephyr/serial_adapter.c:128-153 | in every state the lines read are a prefix of the lines of what was stored |
| `SerialPorts.FeedChunk` | boot/zephyr/serial_adapter.c:240-268 | feeding a chunk up to a newline at once gives the same lines as feeding its bytes |
| `SerialPorts.Batches` | boot/zephyr/serial_adapter.c:232-268 | several batches store the same stream as their concatenation |
| `SerialPorts.RawPort.Callback` | boot/zephyr/serial_adapter.c:190-285 | the raw interrupt stores the whole FIFO in order, or loses one byte and stops when no buffer is left; the buffer being read keeps its bytes |
| `SerialPorts.RawPort.Lock` | boot/zephyr/serial_adapter.c:287-315 | the locked section keeps the invariant and hands over the oldest fragment |
| `SerialPorts.RawPort.Copy` | boot/zephyr/serial_adapter.c:110-125 | copies at most the requested bytes and keeps the rest pending |
| `SerialPorts.LinePort.Batch` | boot/zephyr/serial_adapter.c:232-268 | the line-mode interrupt stores the whole batch, or loses the rest of it when no buffer is left; the buffer being read keeps its bytes |
| `SerialPorts.LinePort.StoreChunk` | boot/zephyr/serial_adapter.c:252-267 | one pass stores a chunk, cut to the line length, and publishes it at a newline |
| `SerialPorts.LinePort.Lock` | boot/zephyr/serial_adapter.c:287-315 | the locked section keeps the invariant |
| `SerialPorts.LinePort.Copy` | boot/zephyr/serial_adapter.c:134-151 | returns the next line cut to the buffer, or none |
| `ImageSign.Sign` | scripts/imgtool/main.py:517-660 | for every unencrypted little-endian image the tool makes: `verify` accepts it with the signing key and without, `dumpinfo` shows the exact header and both record lists and the trailer it wrote, the bootloader computes the unpadded length, and padding gives exactly the slot size |
| `ImageWriter.Create` | scripts/imgtool/image.py:515-798 | succeeds exactly when no field overflows, custom types are in the vendor range, only one address is given and the trailer fits; the result is header, body, protected area, then records over all of that |
| `ImageWriter.ProtectedSize` | scripts/imgtool/image.py:543-603 | the size is added up item by item before any record exists |
| `ImageFormat.ProtectedSizeIsEmitted` | scripts/imgtool/image.py:543-681 | that size is the size of the area that is then emitted, and 0 exactly when there is none |
| `ImageFormat.ProtectedFits` | scripts/imgtool/image.py:629-681 | once the size fits its header field, so does every record and the total |
| `ImageWriter.ProtectedArea` | scripts/imgtool/image.py:629-681 | the records are security counter, boot record, dependencies, vendor and class ids, custom ones, in this order; refused exactly for a custom type out of range |
| `ImageWriter.SigningArea` | scripts/imgtool/image.py:683-738 | hash, purity marker, key and signature over the right message; refused exactly when a length overflows |
| `ImageWriter.AddHeader` | scripts/imgtool/image.py:809-854 | the header replaces the first 32 bytes; refused exactly when a field overflows |
| `ImageWriter.TlvBuffer.Add` | scripts/imgtool/image.py:135-152 | appends one record, or changes nothing for a type out of the vendor range or a length over 16 bits |
| `ImageWriter.TlvBuffer.Get` | scripts/imgtool/image.py:154-159 | nothing for an empty buffer, else magic, total and records |
| `ImageWriter.PadTo` | scripts/imgtool/image.py:879-895 | gives exactly the slot size if and only if image and trailer fit, with the trailer last |
| `ImageWriter.Trailer` | scripts/imgtool/image.py:879-895 | the trailer has the magic last, image_ok set exactly when confirmed, the rest erased |
| `ImageWriter.TrailerCovers` | boot/bootutil/src/bootutil_area.c:45-94 | the tool's trailer covers the bootloader's in every swap mode, except in offset mode with fewer than one alignment unit of status |
| `ImageWriter.ImageOkAgrees` | boot/bootutil/src/bootutil_misc.h:28-38 | tool and bootloader agree on image_ok exactly when the slot is a whole number of alignment units |
| `ImageReaders.ReadImageInfo` | scripts/imgtool/dumpinfo.py:127-246 | the walk over file and trailer, errors included, as a function of the bytes |
| `ImageReaders.ReadRecords` | scripts/imgtool/dumpinfo.py:175-206 | the record loop reads records while they start below the end, with data cut at the end of the file |
| `ImageReaders.InfoRecovers` | scripts/imgtool/dumpinfo.py:147-206 | on any file that starts with an image it finds exactly the header and both lists |
| `ImageReaders.WalkEncoded` | scripts/imgtool/dumpinfo.py:175-206 | where records were written the loop finds those records and stops at their end |
| `ImageReaders.HeaderRecovered` | scripts/imgtool/dumpinfo.py:147-157 | every header field reads back |
| `ImageReaders.TrailerRecovered` | scripts/imgtool/dumpinfo.py:208-236 | alignment, image_ok, copy_done and the swap fields read back from the end of a padded file |
| `ImageReaders.ReadImageSize` | boot/boot_serial/src/boot_serial_encryption.c:61-104 | the bootloader's computation in 32 bits, with its refusals |
| `ImageReaders.SizeIsImageLength` | boot/boot_serial/src/boot_serial_encryption.c:61-104 | on any area that holds an image it is the unpadded length |
| `ImageVerify.Verify` | scripts/imgtool/image.py:898-983 | the two scans over the records decide as the list-free specification does, errors included |
| `ImageVerify.AcceptedWithKey` | scripts/imgtool/image.py:898-983 | an image is accepted with its signing key and with the public half, pure or not, padded or not |
| `ImageVerify.AcceptedWithoutKey` | scripts/imgtool/image.py:898-983 | without a key any image is accepted for its hash |
| `ImageVerify.UnsignedRefused` | scripts/imgtool/image.py:898-983 | an image made without a key is refused with every key |
| `ImageVerify.AcceptedIsSigned` | scripts/imgtool/image.py:898-983 | any file accepted with a key holds, among the records of its unprotected area, a signature record by that key over everything before that area, itself or through an allowed hash |
| `ImageVerify.JudgeSound` | scripts/imgtool/image.py:943-983 | the scan accepts only on such a record, met on its own walk, from any point and any own digest |
| `ImageVerify.VerdictOnImage` | scripts/imgtool/image.py:898-983 | the verdict on a file is the verdict on the written records |
| `ImageVerify.LocateArea` | scripts/imgtool/image.py:909-926 | finds the unprotected area behind a protected one or alone |
| `Tlv.ParseEncoded` | scripts/imgtool/image.py:126-159 | parsing what was encoded gives the records back |
| `Tlv.EncodeSplit` | scripts/imgtool/image.py:126-159 | encoding distributes over concatenation |
| `PlanScratch.PlanPartitions` | tools/partition_layout.py:1560-1790 | in every topology all planned partitions are erase-aligned, inside their device and disjoint if and only if the devices are large enough for it; each partition is on its device once; in the two-slot layout slot 1 is slot 0 plus one largest-erase sector |
| `PlanScratch.PlanTwoSlot` | tools/partition_layout.py:1663-1711 | slot 0 takes all largest-erase sectors there are, slot 1 is slot 0 plus one of them unless overwrite-only, storage is planned once; right exactly when the external device holds what is needed |
| `PlanScratch.PlanTinyInternal` | tools/partition_layout.py:1597-1637 | bootloader alone internal, slots and tail external; right exactly when both fit |
| `PlanScratch.PlanSingleApp` | tools/partition_layout.py:1638-1662 | slot 0 fills the internal device up to the tail, the filesystem the external one |
| `PlanScratch.PlanInternalOnly` | tools/partition_layout.py:1713-1739 | half for slot 0, the rest for the filesystem, which is at most a sector smaller |
| `PlanScratch.PlanExternalOnly` | tools/partition_layout.py:1741-1779 | two equal slots; the filesystem keeps 1 MB whenever slots above 1 MB leave room for it |
| `PlanScratch.SlotSize` | tools/partition_layout.py:1608-1622 | at most 2 MB and an eighth of the device, whole blocks, shrunk so that 1 MB stays free |
| `PlanScratch.FilesystemLast` | tools/partition_layout.py:1698-1710 | with the rest of a device as last partition the layout is right exactly when the rest is not negative |
| `PlanScratch.TinyInternalFits` | tools/partition_layout.py:1608-1637 | an external device of 1 MB with erase blocks up to 64 KB always holds slots and tail |
| `PlanScratch.PowersUsable` | tools/partition_layout.py:1580-1584 | power-of-two erase sizes are all the planner assumes |
| `PlanCarried.MoveSlot1` | tools/partition_layout.py:764-923 | for any carried partitions: none that lived beyond the previous slot 0 is grown over, the new tail touches none, external partitions touch none if the first one leaves slot 1 its start; all carried ones stay |
| `PlanCarried.PlanInternal` | tools/partition_layout.py:781-873 | bootloader, grown slot 0 and tail in order, the tail behind every carried partition, everything inside when none is carried |
| `PlanCarried.GrowSlot0` | tools/partition_layout.py:784-837 | slot 0 ends before the tail and before what is carried beyond it; it is as large as that allows, or as its pin; its size is negative exactly when they leave nothing |
| `PlanCarried.SlotLimit` | tools/partition_layout.py:814-821 | the loop finds the least offset among the carried partitions beyond the previous slot 0 |
| `PlanCarried.InternalTail` | tools/partition_layout.py:849-865 | NVM and storage at erase-block boundaries from the cursor on |
| `PlanCarried.PlanExternal` | tools/partition_layout.py:875-923 | slot 1 has the wanted size exactly when the first carried partition leaves room, own partitions lie in front of the carried ones and the filesystem behind; otherwise NVM is in the way |
| `PlanCarried.PlaceSlot1` | tools/partition_layout.py:880-896 | slot 1 is cut off in front of the first carried partition |
| `PlanCarried.AddBehind` | tools/partition_layout.py:914-922 | carried partitions unchanged, filesystem behind the last of them |
| `PlanReslot.PlanKept` | tools/partition_layout.py:924-1152 | from a right layout the plan is disjoint, and inside the device, exactly when the partitions planned anew meet none that stays, and end inside; what the planner does not own stays as it was; every label left to upstream names a partition at its upstream place and size |
| `PlanReslot.AddTail` | tools/partition_layout.py:1120-1152 | storage, NVM and filesystem are whole erase blocks inside the device, one behind the other and behind everything kept, so the list is as disjoint as before |
| `PlanReslot.AddFilesystem` | tools/partition_layout.py:1135-1150 | the filesystem leaves less than an erase block of the device, or of its cap |
| `PlanReslot.ApplyBootPin` | tools/partition_layout.py:968-981 | a pinned bootloader size replaces the upstream one; the list stays disjoint exactly when the new bootloader meets none of the others, which stay |
| `PlanReslot.ApplySizes` | tools/partition_layout.py:983-1088 | slots are re-sized by pin, by filesystem cap or to the minimum, or kept; the list stays disjoint exactly when no new slot meets another partition, and those stay |
| `PlanReslot.ReplaceSlots` | tools/partition_layout.py:1073-1088 | new slots take the place of the old ones; the list stays disjoint exactly when they meet no other partition |
| `PlanReslot.ApplyCap` | tools/partition_layout.py:1090-1118 | slots above 2 MB are cut, as the upstream size of slot 0 decides; the list stays disjoint exactly when the cut slots meet no other partition |
| `PlanPredefined.Shared` | tools/partition_layout.py:992-1009 | twice the shared size, the swap sector, the tail and the cap fit behind the bootloader |
| `PlanLayout.PlanDisjointIff` | tools/partition_layout.py:924-1152 | for every board with a right upstream layout: the plan is disjoint exactly when no new bootloader or slot meets a partition that stays |
| `PlanLayout.PlanInsideIff` | tools/partition_layout.py:924-1152 | for every such board: the plan is inside the device exactly when the new partitions end inside it |
| `PlanLayout.OthersStay` | tools/partition_layout.py:926-951 | for every board: partitions the planner does not own are in the plan exactly as upstream has them |
| `PlanLayout.TailFacts` | tools/partition_layout.py:1120-1150 | for every board: the tail is aligned, inside the device, disjoint and behind the cursor |
| `PlanLayout.TailApart` | tools/partition_layout.py:1120-1150 | for every list of kept partitions: the tail starts behind the end of each |
| `PlanLayout.SlotsAreRestAndNew` | tools/partition_layout.py:964-1118 | the planned slots are exactly what stays and what is new, through boot pin, re-sizing and cap |
| `PlanLayout.NewFacts` | tools/partition_layout.py:968-1118 | what is new is disjoint in itself |
| `PlanLayout.ScratchBoard` | tools/partition_layout.py:1031-1088 | a board whose slot 0 grows over an upstream partition behind slot 1 |
| `PlanLayout.OneSlotBoard` | tools/partition_layout.py:1055-1065 | a board without slot 1 whose slot 0 grows past the end of the device |
| `PlanFilesystem.CapPlan` | tools/partition_layout.py:964-1152 | a bootloader and two slots under a filesystem cap get exactly the layout the cap asks for, whatever their order, whenever the slots can share and do not already; with a slot 0 above 2 MB they get slots cut to that |
| `PlanFilesystem.StandardSlots` | tools/partition_layout.py:964-1118 | the slots of any such board: cut when slot 0 is above the cap, else shared, else as they are |
| `PlanFilesystem.CapLayoutIsRight` | tools/partition_layout.py:964-1152 | in it the filesystem has exactly the aligned cap, slot 1 is slot 0 plus one sector, and everything is disjoint and inside |
| `PlanFilesystem.PlanTwice` | tools/partition_layout.py:964-1152 | planning again changes nothing if and only if the shared size is at most the 2 MB cap |
| `PlanFilesystem.CapFixedPoint` | tools/partition_layout.py:1090-1118 | the same from the layout itself, with the slots the second run gives otherwise |
| `PlanFilesystem.CapAlternates` | tools/partition_layout.py:1090-1118 | above the cap the second run gives another layout and the third the first one again |
| `PlanFilesystem.AlternatingBoard` | tools/partition_layout.py:1090-1118 | a 16 MB device with a 4 MB cap is such a board |
| `PlanFilesystem.SettledBoard` | tools/partition_layout.py:964-1152 | a 2 MB device with a 512 KB cap is re-slotted once and then settled |
| `PlanFilesystem.TailOfCap` | tools/partition_layout.py:1120-1152 | storage, NVM and the whole cap fit behind the slots |
| `PlanSplit.PlanCodeSplit` | tools/partition_layout.py:1306-1431 | the loops over the nodes find region and bound as the specification does; nothing is planned for a predefined layout, a missing region or an unbounded one |
| `PlanSplit.LocateRegion` | tools/partition_layout.py:1252-1303 | the first code node, with its base taken from the generated boot node when it is the tool's own |
| `PlanSplit.TailBound` | tools/partition_layout.py:1342-1367 | the least of the region's end, when known, and the kept partitions behind the base |
| `PlanSplit.FindTail` | tools/partition_layout.py:1342-1367 | the loop finds that bound |
| `PlanSplitAgain.SplitAgain` | tools/partition_layout.py:1252-1431 | planning again from the generated nodes, in any order, gives the same split if and only if a kept partition starts behind the base and no later than the end of the original region |
| `PlanSplitAgain.SplitForever` | tools/partition_layout.py:1252-1431 | then the split stays the same however often it is planned again |
| `PlanSplitAgain.BuildExists` | tools/partition_layout.py:1434-1495 | the generated file, put behind the upstream nodes, deletes the code node and adds exactly the planned ones |
| `PlanSplitAgain.SplitFits` | tools/partition_layout.py:1396-1431 | the parts follow each other from the base to the bound, and slot 0 has a size exactly when there is room |
| `PlanSplitAgain.SplitTouchesNothing` | tools/partition_layout.py:1342-1431 | the split ends before every partition behind the base that is kept |
| `PlanSplitAgain.RegionAgain` | tools/partition_layout.py:1252-1303 | the second run finds the same region, with its size unknown |
| `PlanSplitAgain.BoundsAgain` | tools/partition_layout.py:1342-1363 | both runs meet the same kept partitions |
| `Partitions.LargestServesBoth` | tools/partition_layout.py:1582-1584 | multiples of the larger erase size are multiples of both when one divides the other |
| `Partitions.Sort` | tools/partition_layout.py:764-770 | in order of offset, a permutation |
| `SectorDecrypt.SectorsAreWhole` | boot/boot_serial/src/boot_serial_encryption.c:267-287 | sector by sector is whole-image decryption: header and TLVs unchanged, each body byte with the keystream of its own position, when header and sectors line up |
| `SectorDecrypt.MisalignedFails` | boot/boot_serial/src/boot_serial_encryption.c:118-200 | when they do not, the loop runs past its buffer or gives another result, under every cipher that changes the first TLV byte at the position behind the body |
| `SectorDecrypt.HeaderSplitsSector` | boot/boot_serial/src/boot_serial_encryption.c:148-165 | a sector in which a longer header ends cannot be decrypted, whatever the cipher |
| `SectorDecrypt.BodyInFirstSector` | boot/boot_serial/src/boot_serial_encryption.c:166-178 | a sector longer than header and body reaches into the TLVs, under every cipher that changes that byte |
| `SectorDecrypt.SectorIsOwnPart` | boot/boot_serial/src/boot_serial_encryption.c:118-200 | lined up, each sector decrypts exactly its own part |
| `SectorDecrypt.SectorsAddUp` | boot/boot_serial/src/boot_serial_encryption.c:267-287 | after some sectors the bytes below are decrypted and the others as they were |
| `SectorDecrypt.DecryptRegion` | boot/boot_serial/src/boot_serial_encryption.c:118-200 | reads, decrypts in the buffer, erases and writes back one sector; a failed read, erase or write leaves that sector as it was or erased, and all else as it was |
| `SectorDecrypt.DecryptImage` | boot/boot_serial/src/boot_serial_encryption.c:267-287 | the sector loop over an image, up to its size or the end of the area; a flash failure leaves the sectors before it decrypted and at most that one erased |
| `ZcborBulk.MapDecodeBulk` | boot/boot_serial/src/zcbor_bulk.c:12-69 | with distinct keys, return code, count and found flags are those of a search from the table start, for every key stream |
| `ZcborBulk.Search` | boot/boot_serial/src/zcbor_bulk.c:32-61 | the rotating search finds an entry of the key exactly when there is one |
| `ZcborBulk.SameEntry` | boot/boot_serial/src/zcbor_bulk.c:32-61 | with distinct keys it is the one a search from the start finds |
| `ZcborBulk.MatchedIsCount` | boot/boot_serial/src/zcbor_bulk.c:12-69 | the count is always the number of entries found in this call, also on errors |
| `ZcborBulk.DecodedMapHasNoRepeats` | boot/boot_serial/src/zcbor_bulk.c:32-68 | a map that decodes repeats no key of the table (section 5.6 of RFC 8949) |
| `SharedData.SharedArea.Add` | boot/zephyr/shared_data.c:30-124 | on success one entry is appended and committed; on any failure the committed list is unchanged; a repeat or an overflow is refused; in-range types stay distinct |
| `SharedData.SharedArea.CommittedParses` | boot/zephyr/shared_data.c:30-124 | in every state the retained memory parses, up to the committed total, as header and exactly the committed entries |
| `SharedData.SharedArea.constructor` | boot/zephyr/shared_data.c:20-28 | starts with no entry and nothing committed |
| `SharedData.SharedArea.Search` | boot/zephyr/shared_data.c:57-81 | the walk over the entries finds one of the same type exactly when there is one, or reports a failed read |
| `SharedData.SharedArea.Append` | boot/zephyr/shared_data.c:83-124 | the three writes add the entry and commit it, or leave what is committed |
| `SharedData.SharedArea.RetentionWrite` | boot/zephyr/shared_data.c:97-121 | writes, or fails without effect |
| `SharedData.SameKindIff` | boot/zephyr/shared_data.c:63-81 | in range the duplicate test is equality of the stored type; out of range it never holds |
| `SharedData.StaysDistinct` | boot/zephyr/shared_data.c:63-81 | an in-range type that passes the test keeps the types pairwise distinct |

## Left out

- The trailer handshake around a swap (magic, copy_done, image_ok, swap type) and image validation in `loader.c`: a swap starts with empty status and ends with the last status entry.
- Swap using scratch, overwrite-only, direct XIP and RAM load: other upgrade modes with their own code.
- Encryption during a swap, encrypted-image creation and compression: randomness and external programs.
- SHA, RSA, ECDSA, Ed25519 and AES: arbitrary functions with the one property the proofs use.
- Signing with a fixed signature, exporting the vector to sign, and big-endian or Intel HEX files in imgtool.
- Intel HEX input, C arrays, drive discovery and the printed summary in `tools/uf2conv.py`.
- Reading devicetree, finding flash devices and writing dtsi, cmake and Kconfig text: the planner is given lists of devices, partitions or nodes.
- The list of preserved partitions in the split plan: it only becomes a comment in the generated file.
- `uf2_disk` registration, USB, LEDs, watchdog, logging and the platform mains: I/O selected by configuration.
- A receiver configuration whose region table is present but has length zero.
- Arming and disarming the UART interrupt, and the reader's wait for input: a step of the model is a callback, the locked section or the copy.
- CBOR decoding below the bulk decoder: the input is a sequence of keys with values that decode or do not.
- GhostFat.BuildBootSector: fixes the fields a FAT16 host reads and the signature, not the texts in between.
- GhostFat.BuildRootDirSector: the sizes of the two text files are parameters, their texts are not modelled.
- SerialPorts.DriveRaw: says nothing about reads after a shortage of buffers, where the source drops bytes.
- SerialPorts.DriveLines: says nothing about lines after a shortage of buffers, where the source drops bytes.
- PlanCarried.MoveSlot1: carried partitions inside the previous slot 0 may be overlapped by the grown one, as the source intends.
- PlanFilesystem.CapPlan: for boards with just bootloader, slots, storage, NVM and filesystem; for all others see `PlanLayout`.
- ImageReaders.TrailerRecovered: for overwrite-only images the swap fields lie before the trailer and are not constrained.
