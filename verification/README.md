# Verified model of the partitioning tools and the RAM-dump parser

This project models the parts of the repository that have the most state and arithmetic, and proves what they promise for
all inputs.

- **Partitioning** (`factorybin_tools/tools/ptool.py`, `msp.py`). ptool places partitions around write-protect
  boundaries, builds GPT images or an MBR with a chain of extended boot records, and emits an ordered patch program.
  msp sorts the writes and interprets that program on a disk. Modules `Layout` and `Planner` are the allocator and
  `Placement` says where it must put things; `Record`, `Gpt`, `GptEntry`, `GptBuild`, `Ebr` and `MbrTables` are the
  byte formats, `Patching` and `GptPatch` the patch program and its executor, `Crc` the checksum, `WriteSort` the
  ordering of writes. `GptDisk`, `GptProvision`, `MbrDisk`, `MbrProvision` and `MbrPrimaries` compose them: from a
  partition list to what a reader of the finished disk finds.
- **Page tables** (`logtool/RAMDUMP`). `Registers` is the bit-field class, `Lpae` the long-descriptor walk and its
  exhaustive enumeration, `LpaeWalk` the walk in closed form, `Coalesce` the interval merger, `Mappings` the two
  together, `Armv7Mmu` the short-descriptor snapshot and TLB.
- **Streams.** `Sparse` splits sparse images, `SparseFormat` is what it accepts, `ScatterGather` unrolls the trace
  ring buffer, `Dd` re-blocks a stream.
- **Unwinder and trees.** `UnwindSearch` is the relative-offset binary search, `UnwindExec` the bytecode interpreter
  and `UnwindLaws` the laws of its instructions, `RbTree` the walk that survives corrupted memory.
- `Arith`, `Bytes` and `Options` are shared by the rest.

Code that changes state is modelled by classes and methods with loops (`WriteProtectTable`, `DiskFile`, `Register`, `Mmu`,
`UnwindCtrlBlock`, `Stackframe`). Each is proved equal to a specification function, and the properties are lemmas about
that function.

## Where the code does less than one would expect

For each of these the exact condition is proved, and a lemma or the condition itself gives an input that fails.

- A read-only last partition that is grown to fill the disk is protected only as far as the last region reaches. This
  happens on GPT disks (`GptLayout`, `GrownReadonlyExposed`) and, since every primary is read-only, on MBR disks with at
  most four partitions (`MbrLayout`, `GrownPrimaryExposed`).
- A writable partition can end up inside a protected region after an empty read-only partition (`EmptyReadonlyTraps`); it
  does so exactly when the guard of `TrappedExactly` holds at some step.
- The GPT itself is protected only if the write-protect boundary spans its 34 sectors (`TableProtected`).
- A checksum patched into sector 0 overwrites it with another sector (`SectorZeroExactly`, `ChecksumIntoSectorZero`). No
  emitted patch does this.
- An EBR chain reads back only while offsets and sizes fit 32 bits (`ChainRoundTrip`, `StartOverflows`).
- The last logical partition runs over the end of the disk when its start is moved by more than one sector
  (`LastFitsExactly`, `LastOverruns`).
- The enumeration of long-descriptor tables misplaces a block that follows a table (`EnumerationAgrees`,
  `StaleBlockMissed`, `BlockIsMissed`).
- The coalesced intervals do not tile the address space when its top page is mapped (`GetCoalesced`, `TopPageMapped`).
- The scatter-gather reader never ends if the write pointer is in none of the pages (`HaltsExactly`, `PastTheEnd`).
- A truncated sparse image is accepted, and its files are then shorter than reported (`GenFile`, `TruncatedAccepted`).
- A field assignment spills into the bits above when the value is too wide (`HarmlessExactly`).
- The unwind search returns a wrong entry for addresses inside the table itself and where the 31-bit key wraps past an
  entry (`AgreesExactly`, `InsideTableWraps`).
- A negative 31-bit offset leads one byte past the place it means (`Prel31Is`, `Prel31RightExactly`).
- A backtrace over a corrupt stack may never end: it goes on for ever exactly when a frame repeats (`EndlessExactly`,
  `BacktraceCanLoop`).
- The tree walk visits the root twice when a reachable node links to it (`VisitsReachable`, `RootVisitedTwice`).

## Model

| member | source | states |
|---|---|---|
| `GptProvision.Provision` | factorybin_tools/tools/ptool.py:401-910 | One run from partition list to finished disk: for every list of at most 128 partitions and every disk of at least 67 sectors, planning, building, writing both images and running the emitted patches succeeds and leaves two valid headers naming each other (`ValidHeader`, byte by byte) and identical entry arrays; entry k carries the type GUID, unique GUID, attribute bits and name of label k at their literal offsets and reads back as placed, and all have usable sectors if and only if the requests and the plan fit the disk; read-only partitions are protected unless the last one is grown past the last region, writable ones are not if the plan is clear, sector 33 is not if the table is protected with a smaller boundary; no byte between the tables changes |
| `GptProvision.WriteTables` | factorybin_tools/tools/ptool.py:571-910 | The byte side of the run, for any entries: valid headers, both arrays equal to the finished entries, boot sector as built, everything between untouched |
| `GptProvision.ProtectionFollows` | factorybin_tools/tools/ptool.py:453-571 | The protection clauses of a finished disk, with both exact conditions and the sufficient one on the requests alone |
| `GptProvision.ListEntries` | factorybin_tools/tools/ptool.py:553-660 | Entry k has the placed first and inclusive last sector, and the GUIDs, attributes and name of label k; numbered GUIDs count from 1 |
| `GptProvision.FinishedLabelled` | factorybin_tools/tools/ptool.py:594-660 | Every entry of the finished array still shows its label, the grown one included |
| `GptEntry.ArrayLabelled` | factorybin_tools/tools/ptool.py:594-660 | Entry k of the array: type GUID in bytes 0 to 16, unique GUID in 16 to 32, attributes in 48 to 56, 36 two-byte characters from 56, cut or filled with zeros |
| `GptEntry.AttributeBytes` | factorybin_tools/tools/ptool.py:633-645 | Bits 60, 62, 63 and 0 of the attribute field stand for read-only, hidden, no automount and system |
| `GptEntry.LEByte` | factorybin_tools/tools/ptool.py:594-621 | Byte i of a number written little-endian is its i-th base-256 digit |
| `GptProvision.WriteImages` | factorybin_tools/tools/ptool.py:903-909 | Both image files land where the tables are read, and nothing between them changes |
| `GptBuild.PatchedDiskIsValid` | factorybin_tools/tools/ptool.py:795-870 | Running the emitted DISK patches in order through msp leaves valid array and header checksums in both headers, agreeing arrays, MyLBA, AlternateLBA and LastUsableLBA of the real disk, and the boot sector and all partition data untouched |
| `GptBuild.BuildImages` | factorybin_tools/tools/ptool.py:571-897 | The primary image is boot sector, sealed header and entry array; the backup image is the same array and a header sealed with its own location fields |
| `GptBuild.BuildArray` | factorybin_tools/tools/ptool.py:571-645 | The entry loop lays the encoded entries one after the other over a zeroed image, so at 512-byte sectors the padding at every fourth entry never moves anything |
| `GptBuild.PutHeader` | factorybin_tools/tools/ptool.py:754-793 | The header fields are laid over sector 1 alone |
| `GptBuild.FixBackup` | factorybin_tools/tools/ptool.py:872-897 | Rewriting location fields and checksum in place gives a sealed backup header over the unchanged array |
| `GptBuild.PutBoot` | factorybin_tools/tools/ptool.py:733-752 | The protective MBR changes sector 0 alone |
| `GptBuild.BootProtects` | factorybin_tools/tools/ptool.py:733-752 | Sector 0 byte by byte: one partition of type 0xEE from sector 1 with the largest size, the signature, the magic, zeros elsewhere |
| `GptBuild.NumEntries` | factorybin_tools/tools/ptool.py:774-783 | Entry count rounded up to whole sectors, never fewer than the partitions listed and at most 128 |
| `GptBuild.WrittenDiskShows` | factorybin_tools/tools/ptool.py:903-909 | A disk holding both image files shows the built tables in the parts a reader looks at |
| `GptBuild.ArrayRead` | factorybin_tools/tools/ptool.py:618-625 | First and last sector of every entry read back from the array bytes |
| `GptDisk.TableReadsBack` | factorybin_tools/tools/ptool.py:536-555 | After patching, entry k gives the start the planner chose and the planned last sector, or N-34 for the grown last partition |
| `GptDisk.FinishedTableReadsBack` | factorybin_tools/tools/ptool.py:536-555 | Every entry of the finished array reads back as placed, in order and disjoint if the plan fits; all entries have sectors up to N-34 if and only if every partition that is not grown asks for sectors and the plan leaves room for the backup table and the grown last one |
| `GptDisk.FinishedTableRespectsProtection` | factorybin_tools/tools/ptool.py:453-571 | In the entry array of the finished disk the sectors of all read-only partitions are protected if and only if no read-only last partition is grown past the last region; those of writable partitions are unprotected if, and on a disk with room only if, the plan is clear |
| `GptPatch.RunLast` | factorybin_tools/tools/ptool.py:536-551 | The two size patches change the last entry of each array to N-34 and nothing else, whatever sector of the array the entry falls in |
| `GptPatch.RunFields` | factorybin_tools/tools/ptool.py:795-825 | The five location patches set LastUsableLBA, AlternateLBA, MyLBA and array location in the right header each |
| `GptPatch.RunArrayCrc` | factorybin_tools/tools/ptool.py:827-838 | The array checksum patches store the checksum of the array as patched so far, through both of the read paths |
| `GptPatch.RunSeal` | factorybin_tools/tools/ptool.py:853-870 | Zeroing and re-computing leaves in each header the checksum of its 92 bytes with the field zero |
| `GptPatch.ChecksumParts` | factorybin_tools/tools/msp.py:1096-1151 | The four checksums the program asks for are taken over exactly the array or header they are meant for |
| `GptPatch.RunAppend` | factorybin_tools/tools/msp.py:985-1252 | Running a patch list is running its front and then its back, failing if either fails |
| `Gpt.SealedIsValid` | factorybin_tools/tools/ptool.py:754-793 | A header sector carrying its own checksum over a matching array has every field of UEFI section 5.3.2 at its literal offset, with checksums over exactly the bytes named there |
| `Gpt.ArrayPatch` | factorybin_tools/tools/ptool.py:536-551 | Overwriting eight bytes at 40 + 128 j of the array is updating the last sector of the last entry |
| `Patching.DiskFile.PerformPatching` | factorybin_tools/tools/msp.py:985-1252 | The executor, with its 64-sector read-modify-write windows, computes the in-place meaning of the patch list and stops at the first failure |
| `Patching.DiskFile.PerformPatch` | factorybin_tools/tools/msp.py:1096-1252 | One patch: succeeds exactly when its value and sector can be read, and leaves the disk unchanged otherwise |
| `Patching.DiskFile.ReadChecksum` | factorybin_tools/tools/msp.py:1096-1151 | The checksum read as the tail of a 64-sector window above sector 64 is that of the named bytes, as below |
| `Patching.DiskFile.RewriteSector` | factorybin_tools/tools/msp.py:1153-1252 | Reading a window, changing bytes and writing it back is one overlay on the disk |
| `Patching.PutBytes` | factorybin_tools/tools/msp.py:1215-1224 | The byte loop is a little-endian overlay |
| `Patching.WindowWrite` | factorybin_tools/tools/msp.py:1153-1252 | Writing a changed window back changes only the patched bytes of the disk |
| `Patching.PatchedInPlace` | factorybin_tools/tools/msp.py:1153-1252 | A patch touches exactly the bytes it names, unless it puts a checksum into sector 0 |
| `Patching.SectorZeroExactly` | factorybin_tools/tools/msp.py:1153-1160 | A checksum patch into sector 0 touches only its own bytes if and only if the sector at which reading for the checksum stopped agrees with sector 0 elsewhere, because the file is not moved back to sector 0 before reading |
| `Patching.ChecksumIntoSectorZero` | factorybin_tools/tools/msp.py:1153-1160 | The concrete failure, with a four-byte patch: sector 0 is replaced by the sector after it |
| `Record.PutField` | factorybin_tools/tools/ptool.py:327-337 | The byte loop of UpdatePrimaryGPT and UpdateBackupGPT is a little-endian overlay in place, returning the next index |
| `Record.EncodeRead` | factorybin_tools/tools/ptool.py:754-793 | Every field of a packed record is found at its offset |
| `Record.EncodeUpdate` | factorybin_tools/tools/ptool.py:872-897 | Overwriting the bytes of one field is updating that field and no other |
| `Crc.CalcCRC32` | factorybin_tools/tools/ptool.py:1441-1475 | For every byte array the register that shifts up, starting from ones and complemented at the end, fed reflected bytes, gives the reflected CRC-32 of IEEE 802.3 section 3.2.9 |
| `Crc.Reflect` | factorybin_tools/tools/msp.py:1322-1332 | The loop reverses the lowest nBits bits |
| `Crc.FeedByte` | factorybin_tools/tools/ptool.py:1450-1468 | Eight register steps over a reflected byte are, reversed, one byte of the reference |
| `Crc.StepReversed` | factorybin_tools/tools/ptool.py:1454-1465 | Reversal commutes with a register step |
| `Crc.PolyValue` | factorybin_tools/tools/ptool.py:1444-1444 | The set of exponents is the generator 0x04C11DB7 of the code |
| `Crc.PolyReflectedValue` | factorybin_tools/tools/ptool.py:1441-1475 | Its reflection is 0xEDB88320, the generator of the reference |
| `Crc.RegisterOfWord` | factorybin_tools/tools/ptool.py:1441-1475 | Up to four bytes act as one word added before any shift |
| `Crc.RegisterInjective` | factorybin_tools/tools/ptool.py:1441-1475 | Equal input keeps distinct registers distinct |
| `Crc.BurstDetected` | factorybin_tools/tools/msp.py:1380-1410 | Two arrays of equal length that differ only within four consecutive bytes have different checksums |
| `Crc.CrcOfNothing` | factorybin_tools/tools/ptool.py:1441-1475 | The checksum of no bytes is 0, so initial value and final complement agree |
| `Crc.CrcOfOnes` | factorybin_tools/tools/ptool.py:1441-1475 | The checksum of four bytes 0xFF is 0xFFFFFFFF, so the initial value is all ones |
| `Crc.Residue` | factorybin_tools/tools/msp.py:1380-1410 | Data followed by its own checksum, little-endian, always has the checksum of four zero bytes |
| `Layout.TillAligns` | factorybin_tools/tools/ptool.py:2017-2038 | Adding the sectors till the boundary gives a multiple of it, by less than one boundary |
| `Layout.WpUpdateKeeps` | factorybin_tools/tools/ptool.py:1373-1421 | Extending or opening a region keeps all regions whole boundaries, ascending, separated, with end = start + num - 1 and matching counts |
| `Layout.PutCovered` | factorybin_tools/tools/ptool.py:1373-1421 | A read-only partition lies inside a region from the moment it is placed, and one planned without sectors starts in it or just after it |
| `Layout.ReadonlyProtectedExactly` | factorybin_tools/tools/ptool.py:517-571 | Every sector of every read-only partition is protected if and only if none is grown, or the disk ends inside the last region: the region is extended for the planned size of 0 and the partition is sized later |
| `Layout.WritableUnprotectedExactly` | factorybin_tools/tools/ptool.py:493-515 | On a disk with room for the plan no sector of a writable partition is protected if and only if the plan is clear |
| `Layout.PutClear` | factorybin_tools/tools/ptool.py:479-515 | Placing a partition keeps writable ones clear of regions, also of the region it extends, exactly when it is not itself a writable partition the region still covers |
| `Layout.WalkKeeps` | factorybin_tools/tools/ptool.py:453-571 | Every prefix of every walk keeps region shape, order and disjointness of partitions, and coverage of read-only ones |
| `Layout.WalkClear` | factorybin_tools/tools/ptool.py:479-515 | No writable partition meets any final region if and only if no step was trapped |
| `Layout.TrappedExactly` | factorybin_tools/tools/ptool.py:493-515 | The guard of the failing branch: a step is trapped if and only if a writable partition with sectors starts, after performance alignment, on the first sector of the current region's last boundary, so it is moved by nothing (for an aligned logical partition: the ALIGN boundary leaves it in the region) |
| `Layout.SaneIsClear` | factorybin_tools/tools/ptool.py:453-571 | Non-empty read-only partitions and an ALIGN boundary of whole write-protect boundaries are enough for every writable partition to stay writable |
| `Layout.PerformanceAligned` | factorybin_tools/tools/ptool.py:479-486 | A GPT start is a multiple of its performance boundary when that divides the write-protect boundary, although write protection moves it again |
| `Placement.GptPlacement` | factorybin_tools/tools/ptool.py:453-571 | Every GPT plan without reference to the walk: partition k has the requested size and flags and starts at the sector after the one before it, raised to the least performance multiple when aligning; it is moved to the least boundary multiple at or above that if and only if it is writable and still in the region reached, or read-only and past it; the region reached is the least multiple covering the read-only partitions so far |
| `Placement.MbrPlacement` | factorybin_tools/tools/ptool.py:1684-1925 | Every MBR plan in the same terms: packed primaries, the extended partition, and each logical partition at its free sector, its ALIGN multiple or the next boundary |
| `Placement.WritablePacked` | factorybin_tools/tools/ptool.py:503-515 | Writable partitions without alignment are packed with no gap from sector 34, or from the end of the protected region |
| `Placement.LeastMultipleMeans` | factorybin_tools/tools/ptool.py:2017-2038 | The start moved to is a multiple, not below the free sector, and the least such |
| `Placement.GptProtectsExactly` | factorybin_tools/tools/ptool.py:1373-1421 | If read-only partitions have sectors, a sector is protected if and only if it shares a boundary with a read-only partition or the protected table: nothing is protected without need |
| `Placement.MbrProtectsExactly` | factorybin_tools/tools/ptool.py:1373-1421 | The same on the MBR path, for MBR sector, primaries, EBR tables and read-only logical partitions |
| `Planner.GptLayout` | factorybin_tools/tools/ptool.py:436-728 | Every GPT layout meets the region, order and coverage invariants, the partition table included; its read-only partitions are protected up to any last sector exactly when a grown last one ends in the last region; it is clear exactly when no step is trapped |
| `Planner.GrownReadonlyExposed` | factorybin_tools/tools/ptool.py:517-571 | A read-only last partition that is grown: no sector from 128 on is protected |
| `Planner.GptWritableStaysWritable` | factorybin_tools/tools/ptool.py:453-571 | If every read-only partition but the last has sectors, no writable partition is ever protected |
| `Planner.EmptyReadonlyTraps` | factorybin_tools/tools/ptool.py:493-515 | Otherwise it fails: an empty read-only partition opens a region and the writable one after it stays inside |
| `Planner.TableProtected` | factorybin_tools/tools/ptool.py:436-440 | In every finished plan the 34 sectors of the GPT are protected if and only if the boundary is at least 34 sectors; below that sector 33 never is |
| `Planner.MbrLayout` | factorybin_tools/tools/ptool.py:1568-1600 | Every MBR layout meets the same invariants, with MBR sector, primaries and EBR tables inside regions; a read-only partition is grown exactly when at most four are listed and growing is on, and all are protected up to any last sector exactly when that one ends in the region |
| `Planner.GrownPrimaryExposed` | factorybin_tools/tools/ptool.py:1684-1720 | A single primary that is grown: no sector from 64 on is protected |
| `Planner.MbrWritableStaysWritable` | factorybin_tools/tools/ptool.py:1833-1925 | With non-empty read-only logical partitions and ALIGN a multiple of the write-protect boundary, every writable partition stays writable |
| `Planner.WriteProtectTable.UpdateWPhash` | factorybin_tools/tools/ptool.py:1373-1421 | The in-place update of hash_w is the region update proved about above |
| `Planner.WriteProtectTable.MoveGpt` | factorybin_tools/tools/ptool.py:479-515 | The start the code moves to is the chosen one, whatever the size later becomes |
| `Planner.WriteProtectTable.MoveLogical` | factorybin_tools/tools/ptool.py:1881-1909 | The start of a logical partition |
| `Planner.WriteProtectTable.PlaceGpt` | factorybin_tools/tools/ptool.py:453-728 | The partition loop produces the GPT plan, whose starts `GptPlacement` determines |
| `Planner.WriteProtectTable.PlacePrimaries` | factorybin_tools/tools/ptool.py:1684-1780 | The primary loop produces the packed plan of read-only primaries, a last one marked as sized by a patch when growing |
| `Planner.WriteProtectTable.PlaceMbr` | factorybin_tools/tools/ptool.py:1568-2009 | Primaries alone, or primaries, EBR tables and logical partitions, produce the MBR plan, growing included |
| `MbrProvision.Provision` | factorybin_tools/tools/ptool.py:1568-2009 | One run for more than four partitions, on every disk that holds the tables: it succeeds if and only if a sector is left for the last partition; then a reader finds in the MBR and in record k of the chain type and boot flag of its own request at bytes 4 and 0 of the entry, the extended entry and links, zeros elsewhere, and the magic; primaries and the chain read back as placed, the last partition with its patched size, if and only if the fields fit 32 bits; read-only partitions are protected and writable ones, the sized last one included, are not if the plan is clear; no other sector is touched |
| `MbrProvision.ProtectionFollows` | factorybin_tools/tools/ptool.py:1807-1925 | The sectors the tables give to read-only partitions are protected, those of writable ones are not in a clear plan, however large the disk makes the last one |
| `MbrProvision.NoSectorLeft` | factorybin_tools/tools/msp.py:1189-1190 | Without a sector left the size of the last partition is negative and the run fails |
| `MbrProvision.BuildMbr` | factorybin_tools/tools/ptool.py:1665-1800 | Three primary entries and the extended entry are all readable from the finished MBR, framed by zeros, signature and magic |
| `MbrProvision.BuildPrimaries` | factorybin_tools/tools/ptool.py:1665-1780 | Up to four primary entries are all readable from the finished MBR, framed by zeros, signature and magic |
| `MbrProvision.Patched` | factorybin_tools/tools/ptool.py:1802-1875 | The two patches change the size of the extended entry and of the last record, each to its distance from the end of the disk, and leave every other table field as it was |
| `MbrProvision.LastFitsExactly` | factorybin_tools/tools/ptool.py:1868-1909 | The last partition, as read from the patched disk, ends within the disk if and only if the free sector is at most one sector from its boundary, or needs no move: the size is computed before the start is moved |
| `MbrProvision.LastOverruns` | factorybin_tools/tools/ptool.py:1868-1909 | A layout whose last partition ends 55 sectors past the end of every disk |
| `MbrPrimaries.Provision` | factorybin_tools/tools/ptool.py:1568-1780 | One run for at most four partitions on every disk: it succeeds if and only if a grown last partition starts on the disk; then only sector 0 changes, entry j shows type and boot flag of request j, unused entries are zero, signature and magic are in place, every entry reads back as placed if and only if its fields fit, and all sectors given to the partitions are protected if and only if none is grown past the region |
| `MbrPrimaries.LastGrown` | factorybin_tools/tools/ptool.py:1703-1714 | The size patch sets the last entry to its distance from the end of the disk, leaves the others and all other sectors, and fails exactly when that is negative |
| `MbrPrimaries.TableProtection` | factorybin_tools/tools/ptool.py:1684-1720 | The sectors the MBR gives to the partitions are protected exactly when the plan's are up to the end of the disk |
| `MbrProvision.TablesReadBack` | factorybin_tools/tools/ptool.py:1568-2009 | Tables built for a plan give back its starts and sizes if and only if every field fits |
| `MbrProvision.DiskShows` | factorybin_tools/tools/ptool.py:1763-1999 | From tables on a disk to what a reader sees: primaries and every record show their own type and boot flag |
| `MbrTables.EntryLiteral` | factorybin_tools/tools/ptool.py:1534-1565 | A table entry byte by byte: boot flag, type, start and size as four base-256 digits each |
| `MbrTables.SectorShows` | factorybin_tools/tools/ptool.py:1979-1999 | A record byte by byte: zeros, the partition, the link to the next record or nothing, two empty entries, the magic |
| `MbrDisk.LogicalsFollowTables` | factorybin_tools/tools/ptool.py:1807-1812 | Every logical partition lies beyond all the EBR sectors |
| `Ebr.ChainRoundTrip` | factorybin_tools/tools/ptool.py:1793-2009 | A reader starting at the entry at 0x1EE recovers all placed (start, size) pairs in order and stops after the last, if and only if every offset and size fits its 32-bit field |
| `Ebr.StartOverflows` | factorybin_tools/tools/ptool.py:1982-1983 | A partition that starts 2^32 sectors after sector 2 is read back as starting at sector 2 |
| `Ebr.ChainRead` | factorybin_tools/tools/ptool.py:1979-1999 | From record k the reader gets the remaining partitions, modulo the field width |
| `Ebr.EntryRead` | factorybin_tools/tools/ptool.py:1534-1565 | Type, start and size of a table entry read back modulo the field width |
| `Ebr.UpdatePartitionTable` | factorybin_tools/tools/ptool.py:1534-1565 | Sixteen bytes of the table become the encoded entry, the rest stays |
| `Ebr.BuildRecord` | factorybin_tools/tools/ptool.py:1979-1999 | One round fills four entries and the magic of its own sector |
| `Ebr.BuildChain` | factorybin_tools/tools/ptool.py:1833-2009 | The record loop builds the chain, each record relative to its own sector and each link to the extended partition |
| `WriteSort.SortWrites` | factorybin_tools/tools/msp.py:1656-1702 | The repeated passes end for every list, duplicate start sectors included; the result has every write with a file name exactly as often as the input, in nondecreasing start sector |
| `WriteSort.NotFullCircle` | factorybin_tools/tools/msp.py:1685-1702 | While a start sector is still wanted, the cyclic search has not come round to where it began |
| `WriteSort.PassEnd` | factorybin_tools/tools/msp.py:1685-1702 | A pass that leaves something to be found has found something itself |
| `WriteSort.SortKeeps` | factorybin_tools/tools/msp.py:1683-1683 | Sorting the start sectors loses and repeats none |
| `WriteSort.FilesKeep` | factorybin_tools/tools/msp.py:1683-1690 | The writes kept are those with a file name, each as often as listed |
| `Sparse.GenFile` | factorybin_tools/tools/checksparse.py:301-403 | Accepts exactly the images `Parse` reads, with one file for every run of raw chunks; programming the files at their sectors reproduces every raw byte and touches no don't-care sector, extents ascending and disjoint; the files have the sizes reported if and only if no raw chunk is cut off by the end of the input |
| `SparseFormat.AcceptedExactly` | factorybin_tools/tools/checksparse.py:301-403 | A file is accepted with given chunks if and only if it has 28 bytes, magic and major version at their offsets, the chunks one after the other from the end of the header, as many as the header says and with as many blocks; a don't-care chunk has no data |
| `SparseFormat.ChunkAccepted` | factorybin_tools/tools/checksparse.py:342-399 | One chunk: type, blocks, total size, whole sectors and the data the file still has, by literal offsets |
| `SparseFormat.ImageReadBack` | factorybin_tools/tools/checksparse.py:301-403 | Writing a list of chunks in the sparse format and parsing it gives the chunks back |
| `Sparse.TruncatedAccepted` | factorybin_tools/tools/checksparse.py:342-403 | An image cut off before the data of its only chunk is accepted |
| `Sparse.CopyRaw` | factorybin_tools/tools/checksparse.py:135-146 | The copy through a bounded buffer is one read |
| `Sparse.NextChunk` | factorybin_tools/tools/checksparse.py:342-399 | Reading a chunk accepts exactly the headers whose sizes agree |
| `Sparse.AddChunk` | factorybin_tools/tools/checksparse.py:364-389 | A raw chunk extends the open file or starts one, a don't-care chunk closes it, the sector advances by the whole chunk |
| `Sparse.LayOutHas` | factorybin_tools/tools/checksparse.py:342-403 | Every byte of an output file is at its place in the image |
| `Sparse.LayOutLeaves` | factorybin_tools/tools/checksparse.py:342-403 | A sector outside all extents is left alone |
| `Sparse.KeptStep` | factorybin_tools/tools/checksparse.py:342-403 | Each chunk keeps the files faithful to the image so far |
| `ScatterGather.ReadFull` | logtool/RAMDUMP/qdss.py:309-353 | For every well-formed table with distinct pages and the write pointer in one, the loop ends and writes every buffer byte once, rotated to start at the write pointer |
| `ScatterGather.ListedRead` | logtool/RAMDUMP/qdss.py:309-353 | For a table given by its words: byte k of the output is the byte k places after the write pointer in the pages laid end to end, going round at the end |
| `ScatterGather.BlockOf` | logtool/RAMDUMP/qdss.py:315-316 | An entry points at the page whose number is in its bits above 3; its lowest two bits are its type |
| `ScatterGather.HaltsExactly` | logtool/RAMDUMP/qdss.py:309-353 | The loop ends if and only if the write pointer lies in one of the pages |
| `ScatterGather.PastTheEnd` | logtool/RAMDUMP/qdss.py:309-353 | One page and a write pointer just past it: the loop never ends |
| `ScatterGather.Round` | logtool/RAMDUMP/qdss.py:313-353 | One round moves on, wraps or stops with the rotated buffer, and the rounds left fall |
| `ScatterGather.ReadContiguous` | logtool/RAMDUMP/qdss.py:413-425 | The contiguous branch for any write pointer: inside the buffer the output is the buffer rotated to start there; a buffer that is not full is read in order |
| `ScatterGather.SameAsContiguous` | logtool/RAMDUMP/qdss.py:413-425 | On consecutive pages both readers write the same bytes |
| `Dd.Copy` | factorybin_tools/tools/dd.py:244-293 | For all positive ibs and obs the output begins with the bytes of the input from skip * ibs on, as many as count and file allow, then only zeros, fewer than obs, up to a multiple of obs |
| `Dd.Drain` | factorybin_tools/tools/dd.py:268-282 | The inner loop writes whole blocks, loses nothing and leaves less than one |
| `Registers.SelectValue` | logtool/RAMDUMP/bitops.py:15-22 | Masking and shifting is a quotient and a remainder |
| `Registers.AssignValue` | logtool/RAMDUMP/register.py:118-131 | Assigning a value that fits replaces the field arithmetically and nothing else |
| `Registers.AssignBits` | logtool/RAMDUMP/register.py:118-131 | Every bit after an assignment, for values of any width |
| `Registers.HarmlessExactly` | logtool/RAMDUMP/register.py:118-131 | No bit outside the field is ever disturbed if and only if the value fits the field |
| `Registers.SelectAssigned` | logtool/RAMDUMP/register.py:110-131 | What was assigned is read back, cut to the width of the field |
| `Registers.OtherFieldKept` | logtool/RAMDUMP/register.py:118-131 | Fields sharing no bit with the assigned one keep their value |
| `Registers.AssignSpills` | logtool/RAMDUMP/register.py:118-131 | A value too wide for its field is added to one whose low bits are zero |
| `Registers.Register.GetField` | logtool/RAMDUMP/register.py:110-116 | Unknown names are refused, an unset value reads as None |
| `Registers.Register.SetField` | logtool/RAMDUMP/register.py:118-131 | Unknown names are refused and change nothing; otherwise the field reads back and fields apart from it do not change |
| `Lpae.EnumerationAgrees` | logtool/RAMDUMP/lpaeiommulib.py:48-93 | A 32-bit address lies in a flat mapping, with physical address and attributes as the walk gives them, exactly if translate ends in a leaf, for all addresses, if and only if no second-level table in use has a block after a table |
| `LpaeWalk.TranslateIs` | logtool/RAMDUMP/mmu.py:399-476 | The walk in closed form over the words of the dump: for every 32-bit address, from the descriptors 8 * f, 8 * s and 8 * t into the three tables, page or block address with its offset and attributes from bits 58:52 and 11:2, or nothing |
| `Lpae.StaleBlockMissed` | logtool/RAMDUMP/lpaeiommulib.py:72-84 | The first block after a table is recorded 511 pages too high: the walk finds it and the enumeration does not |
| `Lpae.BlockIsMissed` | logtool/RAMDUMP/lpaeiommulib.py:72-84 | A concrete dump: the block at 2 MB is found by the walk and missing from the enumeration |
| `Lpae.DescriptorAt` | logtool/RAMDUMP/mmu.py:372-389 | The address assembled by field assignments is the table's plus eight times the index, though a nine-bit index spills out of its two-bit field |
| `Lpae.BlocksFirstMeans` | logtool/RAMDUMP/lpaeiommulib.py:72-84 | The condition in terms of the descriptors alone |
| `Lpae.OneMapping` | logtool/RAMDUMP/lpaeiommulib.py:48-93 | No address lies in two mappings |
| `Lpae.FlatGood` | logtool/RAMDUMP/mmu.py:399-476 | Agreement over the first n gigabytes |
| `Lpae.WalkBelow` | logtool/RAMDUMP/mmu.py:414-430 | The walk inside a second-level table depends on the address fields as the architecture splits them |
| `Lpae.GetFlatMappings` | logtool/RAMDUMP/lpaeiommulib.py:48-93 | The three loops sharing one register list the enumeration, stale third-level index included |
| `Lpae.EnumerateSections` | logtool/RAMDUMP/lpaeiommulib.py:70-80 | The second-level loop, with the index the third-level loop left behind |
| `Lpae.EnumeratePages` | logtool/RAMDUMP/lpaeiommulib.py:82-91 | The third-level loop leaves its last index in the register |
| `Coalesce.GetCoalesced` | logtool/RAMDUMP/lpaeiommulib.py:95-158 | For every set of disjoint page-aligned mappings the keys but the last tile the addresses up to the end of the last mapping, and all keys tile [0, 0xffffffff] if and only if that end is at or below its top; in either case every address is shown mapped with its attributes exactly if it is mapped, and touching mapped intervals differ |
| `Coalesce.TopPageMapped` | logtool/RAMDUMP/lpaeiommulib.py:141-150 | With the top page mapped the last key is turned round and the keys do not tile |
| `Coalesce.MarkSamers` | logtool/RAMDUMP/lpaeiommulib.py:99-122 | First pass: exactly the continuing mappings, each with the start of its run |
| `Coalesce.MergeRuns` | logtool/RAMDUMP/lpaeiommulib.py:124-135 | Second pass: the in-place additions give the maximal runs |
| `Coalesce.MergeMeans` | logtool/RAMDUMP/lpaeiommulib.py:99-135 | Merged runs cover the same addresses with the same attributes |
| `Coalesce.MergeShape` | logtool/RAMDUMP/lpaeiommulib.py:99-135 | Runs stay ordered and disjoint, and touching runs differ |
| `Coalesce.FillHoles` | logtool/RAMDUMP/lpaeiommulib.py:137-158 | Naming the holes leaves no gap and tells the truth about every address |
| `Mappings.CoalescedMappings` | logtool/RAMDUMP/lpaeiommulib.py:160-190 | Enumerating and coalescing an orderly dump: the intervals tell for every address exactly what the walk finds, tile up to the last mapping, and tile the address space exactly when the top page is not mapped |
| `Mappings.MapsWhatIsFound` | logtool/RAMDUMP/lpaeiommulib.py:95-158 | Flat mappings that agree with the walk map an address with the attributes of the leaf it ends in |
| `Armv7Mmu.LoadPageTables` | logtool/RAMDUMP/mmu.py:79-116 | The snapshot holds every primary entry and the secondary tables they point to |
| `Armv7Mmu.SnapshotWalk` | logtool/RAMDUMP/mmu.py:118-140 | Walking the snapshot is walking the dump |
| `Armv7Mmu.WalkIs` | logtool/RAMDUMP/mmu.py:118-140 | The walk in closed form: from the word at ttbr + 4 m and, for a table, the word 4 p above it, the section, small or large page with its offset, 0 for other descriptors, nothing for unreadable words |
| `Armv7Mmu.Mmu.VirtToPhys` | logtool/RAMDUMP/mmu.py:46-63 | Any call returns the direct walk of the dump and saves it in the TLB exactly when asked to and not answered from there |
| `Armv7Mmu.Mmu.Lookups` | logtool/RAMDUMP/mmu.py:46-63 | Any sequence of calls with any flags is answered from the dump |
| `UnwindSearch.FindOrigin` | logtool/RAMDUMP/ramdump.py:102-111 | The boundary between negative and other offsets |
| `UnwindSearch.SearchHalf` | logtool/RAMDUMP/ramdump.py:184-200 | The loop over one half computes the search function, for any table |
| `UnwindSearch.SearchMeans` | logtool/RAMDUMP/ramdump.py:184-200 | The search gives the last entry at or below the key, though the key is rebased at every step |
| `UnwindSearch.SearchIdx` | logtool/RAMDUMP/ramdump.py:171-200 | For tables ascending on each side of the origin, the last entry of the chosen half whose address plus offset is at most the program counter, or None |
| `UnwindSearch.Lookup` | logtool/RAMDUMP/ramdump.py:102-200 | In terms of signed offsets, for every program counter: the answer is the last entry of the half whose code starts at or before it if and only if the comparisons agree; for 32-bit program counters and tables of at most 1 GB if and only if it is in reach |
| `UnwindSearch.RightExactly` | logtool/RAMDUMP/ramdump.py:171-200 | The answer is right if and only if, for every entry of the half, the unsigned comparison agrees with the signed one |
| `UnwindSearch.HalfIsEnough` | logtool/RAMDUMP/ramdump.py:171-200 | Searching one half answers for the whole table: below the table always, above it whenever an entry is found |
| `UnwindSearch.AgreesExactly` | logtool/RAMDUMP/ramdump.py:171-200 | For every 32-bit program counter they agree if and only if it lies below the table or above the first positive offset within 2 GB, or further off with no entry passed by the wrapped key |
| `UnwindSearch.InsideTableWraps` | logtool/RAMDUMP/ramdump.py:171-200 | Everywhere inside the table before the first positive offset the last entry is returned, and it starts above the program counter |
| `UnwindExec.UnwindFrame` | logtool/RAMDUMP/ramdump.py:328-385 | Ends on every memory image; the frame becomes its caller's, with sp between the old one and the thread limit and another pc, or stays as it was |
| `UnwindExec.RunCode` | logtool/RAMDUMP/ramdump.py:366-371 | The loop runs all the code with the stack pointer checked after every instruction; 4 * (entries - 1) + byte + 1 falls each time |
| `UnwindExec.Caller` | logtool/RAMDUMP/ramdump.py:328-385 | Success implies low <= sp < high and a changed program counter |
| `UnwindExec.HighMasks` | logtool/RAMDUMP/ramdump.py:328-331 | For thread sizes that are powers of two the limit is the one obtained by masking |
| `UnwindExec.UnwindCtrlBlock.GetByte` | logtool/RAMDUMP/ramdump.py:214-231 | Delivers the next code byte, zero past the end |
| `UnwindExec.UnwindCtrlBlock.ExecInsn` | logtool/RAMDUMP/ramdump.py:233-311 | One instruction of the bytecode: decoded operation on the registers, and at least one code byte consumed |
| `UnwindExec.UnwindCtrlBlock.PopMask` | logtool/RAMDUMP/ramdump.py:240-261 | The mask loop loads the masked registers from consecutive words |
| `UnwindExec.UnwindCtrlBlock.PopRange` | logtool/RAMDUMP/ramdump.py:265-280 | The range loop loads r4 upwards and then the link register |
| `UnwindExec.CodeAt` | logtool/RAMDUMP/ramdump.py:214-231 | The cursor delivers consecutive words, each from its most significant byte |
| `UnwindExec.MaskMeans` | logtool/RAMDUMP/ramdump.py:240-261 | A mask names exactly the registers of its set bits |
| `UnwindExec.LoadedMeans` | logtool/RAMDUMP/ramdump.py:240-261 | The k-th popped register gets the k-th stack word, the others keep theirs, and it fails exactly when one of the words is unreadable |
| `UnwindExec.DecodeWellFormed` | logtool/RAMDUMP/ramdump.py:233-311 | Every instruction touches registers 0 to 15 only |
| `UnwindLaws.Raises` | logtool/RAMDUMP/ramdump.py:236-237 | Bytes 0x00 to 0x3f raise sp by one to 64 words |
| `UnwindLaws.Lowers` | logtool/RAMDUMP/ramdump.py:238-239 | Bytes 0x40 to 0x7f lower it by as much |
| `UnwindLaws.RaisesFar` | logtool/RAMDUMP/ramdump.py:305-307 | 0xb2 n raises it by 129 + n words |
| `UnwindLaws.RaiseLower` | logtool/RAMDUMP/ramdump.py:236-239 | Raising and lowering by the same operand restores every register |
| `UnwindLaws.RaiseOneMore` | logtool/RAMDUMP/ramdump.py:236-237 | b then 0 acts as b + 1 |
| `UnwindLaws.RaiseFarIsThree` | logtool/RAMDUMP/ramdump.py:236-307 | 0xb2 n acts as 0x3f 0x3f n for n below 64 |
| `UnwindLaws.Copies` | logtool/RAMDUMP/ramdump.py:263-264 | 0x90 + r makes sp the value of register r, and is refused for sp and pc |
| `UnwindLaws.PopsMask` | logtool/RAMDUMP/ramdump.py:240-261 | 0x80 + h, l pops, in ascending order, exactly the registers of the mask from r4 on, moves sp past the words unless sp is popped, and refuses an empty mask |
| `UnwindLaws.PopsLow` | logtool/RAMDUMP/ramdump.py:285-303 | 0xb1 m pops the registers r0 to r3 of the mask and refuses an empty or larger one |
| `UnwindLaws.PopsRange` | logtool/RAMDUMP/ramdump.py:265-280 | 0xa0 + n and 0xa8 + n both pop r4 to r(4 + n) and lr |
| `UnwindLaws.SkipThenPop` | logtool/RAMDUMP/ramdump.py:236-261 | Dropping a word and popping lr reads the word at sp + 4 and leaves sp two words up |
| `UnwindLaws.Finishes` | logtool/RAMDUMP/ramdump.py:281-284 | 0xb0 ends the code; a zero pc becomes lr |
| `UnwindLaws.Refuses` | logtool/RAMDUMP/ramdump.py:308-310 | Bytes 0xb3 to 0xff are refused |
| `UnwindLaws.AtTheEnd` | logtool/RAMDUMP/ramdump.py:214-231 | A missing operand is zero; an unreadable word stops the program |
| `UnwindLaws.HeaderMeans` | logtool/RAMDUMP/ramdump.py:355-364 | A table word 0x80 carries three code bytes, 0x81 two and as many further words as its third byte says; others are refused |
| `UnwindLaws.FollowingWord` | logtool/RAMDUMP/ramdump.py:214-231 | Every further word is four code bytes, highest first |
| `UnwindLaws.CodeAddressIs` | logtool/RAMDUMP/ramdump.py:343-353 | Code lies behind a 31-bit offset, in the entry itself, or nowhere |
| `UnwindLaws.Prel31Is` | logtool/RAMDUMP/ramdump.py:313-326 | A 31-bit offset that is not negative is added to its own address; a negative one lands one byte further, because the carry is added back |
| `UnwindLaws.Prel31RightExactly` | logtool/RAMDUMP/ramdump.py:313-326 | The address is right if and only if the offset is not negative |
| `UnwindLaws.CallerIs` | logtool/RAMDUMP/ramdump.py:333-383 | A frame that is found is unwound from its own fp, sp and lr and a zero pc, and the caller takes fp, sp, lr and pc from registers 11, 13, 14 and 15, lr standing in for a zero pc |
| `UnwindExec.StackNeverFalls` | logtool/RAMDUMP/ramdump.py:387-418 | Along every backtrace the stack pointer never falls, rises by less than two thread sizes a frame, and neighbouring frames differ in pc |
| `UnwindExec.EndlessExactly` | logtool/RAMDUMP/ramdump.py:396-418 | With finitely many readable words a backtrace goes on for ever if and only if one of its frames comes twice |
| `UnwindExec.BelowTop` | logtool/RAMDUMP/ramdump.py:328-385 | A frame followed by two more has its stack pointer below the end of readable memory, because one of the two must pop |
| `UnwindExec.LoadTable` | logtool/RAMDUMP/ramdump.py:82-93 | The table holds the pairs of words from the start on, eight bytes apart, and ends at its end address or before the first unreadable pair |
| `UnwindExec.BacktraceCanLoop` | logtool/RAMDUMP/ramdump.py:387-418 | A dump with a two-entry table on which two frames are each other's caller, so the backtrace has every number of frames |
| `RbTree.Walk` | logtool/RAMDUMP/rb_tree.py:33-54 | Ends on every finite memory, well-formed or not, and forgets no address it has seen |
| `RbTree.VisitedOnce` | logtool/RAMDUMP/rb_tree.py:33-54 | On any memory, also when the walk fails at an unreadable link, every node is visited at most once and the root at most twice |
| `RbTree.VisitsReachable` | logtool/RAMDUMP/rb_tree.py:33-54 | A walk that finishes visits exactly the nodes reachable from the root, each once, the root twice if and only if a reachable node links to it |
| `RbTree.FinishesExactly` | logtool/RAMDUMP/rb_tree.py:33-54 | The walk finishes if and only if both links of every reachable node are readable |
| `RbTree.RootVisitedTwice` | logtool/RAMDUMP/rb_tree.py:33-54 | A root that is its own child is visited twice |
| `RbTree.WalkInOrder` | logtool/RAMDUMP/rb_tree.py:33-54 | A well-formed tree is visited in order |

## Left out

- XML and command-line parsing, printing, prompts, logging, file search, subprocesses: the model takes parsed records and a
  disk as a sequence of bytes.
- Sector sizes other than 512 bytes, more than 128 GPT entries, and the conversion of kilobytes to sectors.
- Random partition GUIDs, GUID and label parsing: GUIDs and labels are parameters.
- Patches to the image files instead of the disk: only the patches marked DISK are modelled.
- `NUM_DISK_SECTORS` with an unknown disk size, which msp replaces by a very large number.
- A write-protect boundary of 0, for which ptool reuses a stale distance for read-only partitions.
- Planner.GptWritableStaysWritable: gives a condition on the requests alone that is sufficient; the exact condition is on
  the steps of the walk, in `GptLayout` with `TrappedExactly`, because whether an empty read-only partition opens a region
  depends on the sizes before it.
- Planner.MbrWritableStaysWritable: sufficient in the same way; exact in `MbrLayout` with `TrappedExactly`.
- GptProvision.Provision: of a table protected with a boundary below 34 sectors it says only that sector 33 is
  unprotected. Layouts whose sectors exceed 64 bits are left out.
- Placement.GptPlacement: leaves out a protected table with a boundary below 34 sectors, whose second region begins off
  the boundary. So do `WritablePacked` and `GptProtectsExactly`.
- Placement.GptProtectsExactly: leaves out read-only partitions without planned sectors, which protect the boundary they
  open or nothing (`Reached` in `GptPlacement` says which). So does `MbrProtectsExactly`.
- MbrProvision.Provision: says nothing of reading back when the tables themselves lie beyond 2^32 sectors, since a reader
  then starts from another sector.
- Input-address splits other than n = 5 and the initial second-level lookup of the long-descriptor format; the ARMv8 tables.
- ARMv7 supersections.
- Dictionaries of the coalescer are held as sequences in key order; that enlarging a run's page size also changes the flat
  mapping object it came from is not modelled. Physical contiguity is not claimed, since the code does not compare it.
- Trace buffers that are not full in `read_sg_data` (they are modelled for contiguous memory).
- FILL chunks of sparse images, which genfile rejects like any unknown type, and the rewriting of the XML by its caller.
- The frame-pointer unwinders, the table search for 3.0 kernels, and symbol lookup.
- Conformance of opcodes 0xA0 to 0xA7 to the ARM exception-handling ABI: the code always pops the link register and the
  model does as the code does.
- Thread sizes that are not powers of two: the code masks, the model divides (`HighMasks` relates them).
- When a popped word is unreadable the code stores None in the control block and gives up; the model gives up without the
  store, and the control block is not used again.
- The record counters and progress output of dd.
- Register equality and printing, and adding fields after construction.
- wifi_tools, i2c-tools, serial_client and the remaining RAM-dump parsers: input and output over libraries that are not part
  of this model, tables, or easier walks.
