# Models of the U-Boot command and API cores

This project models the parts of the repository that carry an algorithm over state, arrays or
addresses, and proves what they are for. Imperative C code is modelled by classes and methods
with loops over arrays; each method is proved against a specification function, and the
theorems are about those functions.

| component | files | what is proved |
|---|---|---|
| NOR flash range planner | `Flash.dfy`, `FlashTheorems.dfy` | what a plan covers, exactly which ranges are accepted, how `start +len` composes with the planner, what erase and protect touch |
| Floppy read engine | `Fdc.dfy` | the block/cylinder-head-sector bijection, the data read under any schedule of transfer errors, the retry budget, which schedule leads to which exit, motor and interrupt state |
| EFI memory-map builder | `Efi.dfy`, `EfiTheorems.dfy` | the sort sorts, the in-place compaction preserves the meaning of the map, the result is canonical |
| Storage enumeration | `StorageEnum.dfy` | whole runs of the cookie protocol equal a list, its order and its completeness |
| EEPROM chunker | `Eeprom.dfy`, `EepromTheorems.dfy`, `EepromResult.dfy` | page-limited transfers have the effect of one flat transfer; which transfer decides the result, and exactly when a reported success can be trusted |
| Device-tree property text | `FdtProp.dfy`, `FdtPropText.dfy`, `FdtPropTheorems.dfy`, `FdtPropExact.dfy`, `FdtPropOverrun.dfy`, `FdtPropNumbers.dfy` | parsing undoes printing, and exactly for which values; exactly when the parser reads behind its arguments; what numbers mean in every base |
| Device-tree walks | `FdtTree.dfy` | the level-counter printer and the child loop refine recursion over the tree, and every line is counted against the tree |
| Image checksum | `Checksum.dfy` | end-around-carry arithmetic, order independence, which changes are detected |
| ELF loaders | `Elf.dfy` | loaded memory, and when the two loaders agree |
| INI parser | `Ini.dfy`, `IniTheorems.dfy` | line reading, the reported error, the round trip |

`Arith.dfy` holds division facts, `Machine.dfy` bytes and the 32-bit modulus.

Results that differ from what the code's comments suggest:

- A flash range that runs past the end of flash is not refused but silently shortened
  (`FlashTheorems.PastEndIsShortened`); `AcceptsIffAligned` gives the exact condition.
- A start on the last byte of a bank passes the planner's own range check: on gap-free banks the
  planner reports an error then exactly when the last address ends a sector, and otherwise only
  the count of planned sectors refuses the range (`FlashTheorems.LastByteCaughtByCount`).
- The planner's "end sector precedes start sector" branch cannot be taken
  (`FlashTheorems.EndNeverPrecedesStart`).
- The comment in `addr_spec` says that the callers check for overflow of `start + len`; they
  compare first and last, and `PlusLenOverflowRejected` shows that nothing is touched then.
- `fdc_read_data` leaves interrupts off exactly when the schedules make a seek before a chunk
  after the first fail: which results belong to such seeks is a function of the request and of the
  fault and command schedules (`Fdc.Floppy.SeeksAhead`), and one of them does not report the end
  of its seek (`Fdc.Floppy.ReadData`). `Fdc.InterruptsStayOff` is a run that ends so.
- `h_cmp_entry` is not transitive on starts 2^63 or more apart (`Efi.CmpNotTransitive`), and the
  sort then leaves even two regions out of order (`Efi.FarApartNotSorted`). Two regions are sorted
  exactly when the comparison is the numeric one (`Efi.TwoEntriesSortIff`); up to six come out
  ascending from every arrangement exactly when all starts are less than 2^63 apart
  (`Efi.SmallTablesSortIff`). Larger tables go through passes with wider gaps first; for them the
  condition is proved to be enough.
- `eeprom_rw` reports the result of its last transfer alone, so that a failure before it is lost
  (`EepromResult.EarlyErrorIsMasked`, `EarlyReadErrorIsMasked`, `MaskedErrorExists`), and a range
  that leaves 32 bits reports success and moves nothing (`WrappedMovesNothing`,
  `LastAddressFails`). A reported success can be trusted exactly when the range ends below 2^32 and
  is one chunk (`WriteHonestIff`, `ReadHonestIff`).
- `eeprom_addr` ors the block number into the device address, so that offsets can share a cell
  (`EepromResult.BlocksAlias`). What is written to a range is read back exactly when the range ends
  below 2^32 and no two of its offsets do (`EepromResult.RoundTripIff`).
- A list of strings survives printing and parsing exactly when no string holds the printed
  separator, none but the last ends in the beginning of one, the first does not start with `<` or
  `[`, and the value does not end in a newline; cells and bytes that are printed as text
  always survive (`FdtPropExact.RoundTripIff`). Texts with two readings are in `SeparatorValueFails` and
  `SeparatorAcrossStrings`.
- `fdt_parse_prop` reads the argument behind the last one exactly when a list of cells or bytes is
  still open there: all that was given is words of digits or of 0x and hexadecimal digits, or for
  bytes hexadecimal digits, and spaces (`FdtPropOverrun.OverrunIff`).

Assumptions on the environment. Flash: `unsigned long` has 32 bits, sector starts ascend in each
bank, a bank ends below the top of the address space, unknown banks have no sectors, software
protection, and the driver's erase is a result per bank. Floppy: the controller is a stepwise
device that accepts commands and streams sector bytes, with arbitrary schedules for refused
commands, seek status and transfer errors. EFI: the descriptor size is that of the structure.
Enumeration: device lookup is fixed and injective and the client passes back the last cookie.
EEPROM: chips whose address counter wraps inside a page, with an arbitrary schedule of short
transfers. Device tree: the tags of a well-formed structure block (section 5.4 of the Devicetree
Specification); a printed list of strings is read back by stripping the outer quotes and splitting
at each separator from the left. INI: lines shorter than the line buffer, which the parser needs
for a terminated string.

## Model

| member | source | states |
|---|---|---|
| `Flash.ScanBank` | uboot/cmd/flash.c:223-239 | the sector loop finds the sector that starts at the first address and the one that ends at the last address, or -1 |
| `Flash.FillBank` | uboot/cmd/flash.c:208-270 | one bank is rejected, or contributes its run of sectors and moves the first address on, as the plan of that bank says |
| `Flash.FillSectRanges` | uboot/cmd/flash.c:192-273 | result code, both arrays for every bank and the sector count are those of the plan |
| `Flash.RangesOrdered` | uboot/cmd/flash.c:250-260 | every planned range is a non-empty run of existing sectors of a known bank |
| `Flash.SectRoundb` | uboot/cmd/flash.c:96-132 | succeeds exactly for addresses in flash, and then gives the end of the sector that holds the address; otherwise the address is unchanged |
| `Flash.AddrSpec` | uboot/cmd/flash.c:171-190 | last address of both forms, with failure exactly when the wrapped end of `start +len` is not in flash |
| `Flash.FlashChips.EraseBanks` | uboot/cmd/flash.c:414-431 | the erase calls issued, up to the first driver error, and that error |
| `Flash.FlashChips.SectErase` | uboot/cmd/flash.c:402-438 | nothing is erased and 1 is returned unless the planning checks pass; then the plan is erased bank by bank |
| `Flash.FlashChips.ProtectRange` | uboot/cmd/flash.c:641-650 | exactly the given sectors of the bank get the flag |
| `Flash.FlashChips.ProtectBanks` | uboot/cmd/flash.c:632-655 | the bank loop sets the flags of exactly the planned sectors |
| `Flash.FlashChips.SectProtect` | uboot/cmd/flash.c:619-666 | exactly the planned sectors get the flag, no other entry changes, and the result says whether the checks passed |
| `FlashTheorems.SectorAddresses` | uboot/cmd/flash.c:219-226 | a sector holds the addresses up to the start of the next one, and the last one those up to the size of the bank |
| `FlashTheorems.BankAddresses` | uboot/cmd/flash.c:219-226 | the sectors of a bank hold exactly the addresses from its start that its size counts |
| `FlashTheorems.EndNeverPrecedesStart` | uboot/cmd/flash.c:251-256 | the end sector never precedes the start sector, so this error is never reported |
| `FlashTheorems.PlannedInside` | uboot/cmd/flash.c:208-270 | every planned sector is real and lies between the first address and the end of the plan, which does not pass the last address |
| `FlashTheorems.PlanCovers` | uboot/cmd/flash.c:208-270 | every address of the planned interval lies in a planned sector |
| `FlashTheorems.PlanDisjoint` | uboot/cmd/flash.c:208-270 | no address lies in two planned sectors |
| `FlashTheorems.CountIsCardinality` | uboot/cmd/flash.c:258-259 | the count is the number of planned (bank, sector) pairs |
| `FlashTheorems.PlanIsOneInterval` | uboot/cmd/flash.c:192-273 | a plan without error tiles one interval from the first address to at most the last, without gap or overlap, and is counted exactly |
| `FlashTheorems.EraseRunTouches` | uboot/cmd/flash.c:414-431 | erase succeeds exactly when the driver does on every planned bank, and erases exactly the planned sectors of the banks up to the first failure |
| `FlashTheorems.EraseRunOrder` | uboot/cmd/flash.c:414-431 | the erase calls are for ascending banks, each for the planned sectors of its bank, and the result is 0 or that of the last call |
| `FlashTheorems.AcceptsIffAligned` | uboot/cmd/flash.c:402-438 | on gap-free banks the checks pass if and only if first <= last, first starts a sector, and last ends a sector or lies past the flash |
| `FlashTheorems.TopIsTotalSize` | uboot/cmd/flash.c:219-220 | gap-free banks end where their sizes add up to |
| `FlashTheorems.WholeBankAccepted` | uboot/cmd/flash.c:402-438 | a whole bank, given by its first address and its size, is accepted and all its sectors are planned |
| `FlashTheorems.AcceptedPlansWhatMeets` | uboot/cmd/flash.c:208-273 | an accepted range plans exactly the sectors that meet it |
| `FlashTheorems.PlusLenPlansCover` | uboot/cmd/flash.c:171-190 | `start +len` with an aligned start inside flash never fails and plans exactly the sectors that [start, start+len) touches |
| `FlashTheorems.PlusLenOverflowRejected` | uboot/cmd/flash.c:171-190 | a zero length or an overflowing `start + len` is never accepted |
| `FlashTheorems.LastByteCaughtByCount` | uboot/cmd/flash.c:260-263 | on gap-free banks a start on the last byte of any bank, where no sector starts, is planned with an error exactly when the last address ends a sector, and is never accepted |
| `FlashTheorems.PastEndIsShortened` | uboot/cmd/flash.c:240-249 | a concrete range past the end of flash that is accepted although its last address ends no sector |
| `Fdc.SplitFlat` | uboot/cmd/fdc.c:249-257 | flattening the cylinder, head and sector of a block gives the block, and blocks of the disk are on the disk |
| `Fdc.FlatSplit` | uboot/cmd/fdc.c:249-257 | every place on the disk is that of exactly its flat block number |
| `Fdc.SplitParts` | uboot/cmd/fdc.c:253-257 | a block number is its cylinder, head and sector in mixed base |
| `Fdc.SectSizes` | uboot/cmd/fdc.c:417-417 | the sector sizes of the eight codes, from 128 to 16384 |
| `Fdc.SeekEndIsBit5` | uboot/cmd/fdc.c:427-427 | the seek has ended exactly when bit 5 of the status byte is set |
| `Fdc.StreamOfBlock` | uboot/cmd/fdc.c:437-440 | a read that stays on the block's track side streams the flat bytes of its blocks |
| `Fdc.NextChunk` | uboot/cmd/fdc.c:500-508 | a chunk that is not the last ends its track side, so the next may take a whole side |
| `Fdc.MotorBits` | uboot/cmd/fdc.c:348-348 | the motor bits of the four drives |
| `Fdc.Floppy.SelectDrive` | uboot/cmd/fdc.c:344-354 | the selected motor runs; the register is unchanged or holds the literal value for the drive |
| `Fdc.Floppy.StopDrive` | uboot/cmd/fdc.c:357-363 | the selected motor is off, the other motors are as they were, and exactly the motor and select bits of the drive are cleared |
| `Fdc.Floppy.BuildCmd` | uboot/cmd/fdc.c:261-319 | the bytes of every command of the driver by their places and values, and the lengths |
| `Fdc.BuiltIsAccepted` | uboot/cmd/fdc.c:249-340 | the controller takes a built command for the seek, recalibration or read of the position it was built for |
| `Fdc.Floppy.IssueCmd` | uboot/cmd/fdc.c:249-340 | the effect on the controller and the first result byte of any command of the driver, for any block number |
| `Fdc.Floppy.Recalibrate` | uboot/cmd/fdc.c:367-376 | moves the heads to cylinder 0 and reads the status, exactly when its commands are accepted |
| `Fdc.Floppy.Seek` | uboot/cmd/fdc.c:380-389 | moves the heads to the cylinder of the current block and reads the status, exactly when its commands are accepted |
| `Fdc.Floppy.ReadChunk` | uboot/cmd/fdc.c:453-494 | the bytes before the first fault of the schedule are the streamed ones, in place, nothing before or behind the chunk changes, and the polls are counted |
| `Fdc.Floppy.ReadTrack` | uboot/cmd/fdc.c:444-494 | one attempt brings the disk's bytes of the current block on, up to an error |
| `Fdc.Floppy.FirstChunk` | uboot/cmd/fdc.c:437-442 | the loop starts with a chunk that ends at the track side or at the request |
| `Fdc.Floppy.TakeChunk` | uboot/cmd/fdc.c:443-508 | a good chunk moves on with all earlier data in place, a bad one changes neither position nor data before it |
| `Fdc.Floppy.Attempt` | uboot/cmd/fdc.c:443-505 | one attempt at a chunk: what it brought, and the counters of commands, results and errors |
| `Fdc.Floppy.TryRecalibrate` | uboot/cmd/fdc.c:477-486 | the recalibration, or the exit when its commands are refused |
| `Fdc.Floppy.AfterError` | uboot/cmd/fdc.c:461-491 | after an error: a retry, a recalibration, or the end on the 25th |
| `Fdc.Floppy.Reseek` | uboot/cmd/fdc.c:509-521 | the seek before the next chunk, and the exits it can take |
| `Fdc.Floppy.Round` | uboot/cmd/fdc.c:443-522 | one round keeps the data and the account of the counters, and uses up an error or makes progress |
| `Fdc.Floppy.ReadLoop` | uboot/cmd/fdc.c:443-522 | the loop ends; completion, the 25-error limit, the number of recalibrations and of results read |
| `Fdc.Floppy.Explain` | uboot/cmd/fdc.c:406-527 | which exit is taken: the failed re-seek exactly when the schedules make a later seek fail, exactly when all commands were accepted and the last result, after the first, is a seek that did not end, and without other disturbances exactly when a seek before a later chunk does not end |
| `Fdc.Floppy.ReadData` | uboot/cmd/fdc.c:406-527 | success means that the buffer holds exactly the requested blocks in order, the rest of it is unchanged and the block number has advanced; failure for errors exactly on the 25th, with 4 recalibrations at most; motor off on every exit; interrupts restored exactly when the fault, command and status schedules make no later seek fail |
| `Fdc.ReadsWhenHealthy` | uboot/cmd/fdc.c:406-527 | with every command accepted, no fault and bit 5 in every status, a read of any request succeeds with all its data |
| `Fdc.InterruptsStayOff` | uboot/cmd/fdc.c:517-521 | a run after which interrupts are off that were on before it |
| `Efi.CmpIsNumericIff` | uboot/cmd/efi.c:56-67 | the comparison orders two starts as numbers exactly when they are less than 2^63 apart |
| `Efi.CmpNotTransitive` | uboot/cmd/efi.c:56-67 | three 64-bit starts in a cycle |
| `Efi.FarApartNotSorted` | uboot/cmd/efi.c:83-83 | two regions, at 0 and 2^63 + 1, that the sort leaves in descending order |
| `Efi.TwoEntriesSortIff` | uboot/cmd/efi.c:83-83 | two regions are sorted if and only if their starts are in the range where the comparison is numeric |
| `Efi.PassKeepsOrder` | uboot/lib/qsort.c:40-62 | a pass with gap 1 keeps the order of any two elements it has already placed |
| `Efi.SmallTablesSortIff` | uboot/lib/qsort.c:22-65 | up to six regions come out ascending from every arrangement if and only if all starts are less than 2^63 apart |
| `Efi.Sink` | uboot/lib/qsort.c:42-60 | the inner loop sinks one element by steps of the gap |
| `Efi.QSort` | uboot/lib/qsort.c:22-65 | the array holds the shell-sorted descriptors |
| `Efi.FirstGapIsKnuth` | uboot/lib/qsort.c:32-35 | the first gap is the least of 1, 4, 13, ... that is not below a third of n - 1 |
| `Efi.ShellSorts` | uboot/lib/qsort.c:40-64 | the passes permute, and sort when the gaps step down to 1 |
| `Efi.TableIsSortedPermutation` | uboot/cmd/efi.c:83-83 | the sorted table is a permutation, ascending whenever starts are comparable |
| `Efi.PlaceDesc` | uboot/cmd/efi.c:88-113 | one round writes or merges one descriptor and leaves the unread ones intact |
| `Efi.CompactInPlace` | uboot/cmd/efi.c:84-117 | the compacted table is in place, the write cursor never passes the read cursor, and the end marker fits |
| `Efi.BuildMemTable` | uboot/cmd/efi.c:69-120 | the built table with its end marker is the compaction of the sorted map |
| `EfiTheorems.CompactKeepsMeaning` | uboot/cmd/efi.c:88-113 | the compaction gives every address the same types, as often, and keeps the page total |
| `EfiTheorems.TableKeepsMeaning` | uboot/cmd/efi.c:69-120 | so does the whole builder, with boot-services and loader memory counted as conventional when skipped |
| `EfiTheorems.TableByNumbers` | uboot/cmd/efi.c:49-54 | by type numbers and pages of 4096 bytes: with skipping, type 7 holds what types 1, 2, 3, 4 and 7 held, types 1 to 4 hold nothing, and every other type holds what it held |
| `EfiTheorems.EntriesKept` | uboot/cmd/efi.c:88-113 | every entry has the start, virtual address and attributes of some descriptor, and its type or 7 |
| `EfiTheorems.CompactCanonical` | uboot/cmd/efi.c:97-111 | no entry continues conventional memory of the entry before it, and none is boot services |
| `EfiTheorems.CompactIsCanonicalByNumbers` | uboot/cmd/efi.c:97-111 | by numbers: no type 1 to 4, and no type 7 that starts where the pages of a type 7 before it end |
| `EfiTheorems.CompactAscends` | uboot/cmd/efi.c:88-113 | the compaction keeps strictly ascending order |
| `EfiTheorems.CanonicalFixed` | uboot/cmd/efi.c:88-113 | compacting a canonical table changes nothing |
| `EfiTheorems.SortedUnique` | uboot/cmd/efi.c:83-83 | a strictly ascending table is the only sorted arrangement of its entries |
| `EfiTheorems.TableIsCanonical` | uboot/cmd/efi.c:69-120 | for disjoint regions the table is ascending and canonical and rebuilding it gives the same table; without skipping it is the sorted map |
| `StorageEnum.Enumerator.DevStorGetFirst` | uboot/api/api_storage.c:108-120 | the first device of the group is answered exactly when present and active |
| `StorageEnum.Enumerator.DevStorGetNext` | uboot/api/api_storage.c:121-164 | the device after the cookie's is answered exactly when present and active |
| `StorageEnum.TypeWords` | uboot/api/api_storage.c:49-84 | the type words of the five groups |
| `StorageEnum.Enumerator.DevStorType` | uboot/api/api_storage.c:171-181 | the group that holds a device, or the number of groups |
| `StorageEnum.Enumerator.DevIsStor` | uboot/api/api_storage.c:187-190 | whether the cookie is a device of the group |
| `StorageEnum.Enumerator.DevEnumStor` | uboot/api/api_storage.c:193-284 | a group's turn: its first device, the next one, or nothing, and its flags, with those of other groups unchanged |
| `StorageEnum.Enumerator.DevEnumReset` | uboot/api/api_storage.c:286-294 | no group is started or ended |
| `StorageEnum.Enumerator.DevEnumStorage` | uboot/api/api_storage.c:296-309 | the next position of the list is answered, groups up to it are started and later ones untouched; nothing when the list is exhausted |
| `StorageEnum.Enumerator.DevEnumNet` | uboot/api/api_net.c:59-75 | the network device, if there is one |
| `StorageEnum.Enumerator.ApiDevEnum` | uboot/api/api.c:197-227 | one call of an honest client answers the network device, the next position, or a NULL cookie |
| `StorageEnum.Enumerator.EnumerateAll` | uboot/api/api.c:197-227 | a whole run from any earlier state ends and returns exactly the list, so the next run repeats it |
| `StorageEnum.Enumerator.DevOpenStor` | uboot/api/api_storage.c:311-335 | succeeds exactly for active devices of the groups |
| `StorageEnum.ListIsPrefixes` | uboot/api/api_storage.c:99-165 | the list is exactly each group's longest prefix of present and active devices, strictly ascending by group and index |
| `StorageEnum.CookiesDistinct` | uboot/api/api_storage.c:193-309 | no device is answered twice, and all are active |
| `StorageEnum.DenseGroupsAllListed` | uboot/api/api_storage.c:193-309 | with dense active groups every device is answered |
| `EepromResult.LenIsLargest` | uboot/cmd/eeprom.c:102-123 | a chunk is the longest that what is left, the bus limit of 128 bytes and the page of its offset allow |
| `Eeprom.Driver.WriteLoop` | uboot/cmd/eeprom.c:153-175 | bus and result of the chunked write |
| `Eeprom.Driver.Write` | uboot/cmd/eeprom.c:188-204 | the write handles the whole range, or nothing when the range leaves 32 bits |
| `Eeprom.Driver.ReadLoop` | uboot/cmd/eeprom.c:153-175 | bus, buffer and result of the chunked read, with the rest of the buffer unchanged |
| `Eeprom.Driver.Read` | uboot/cmd/eeprom.c:178-186 | the same for the call, with the 32-bit end of range |
| `EepromTheorems.ChipOf` | uboot/cmd/eeprom.c:80-100 | a block number that shares no bit with the device address is added to it |
| `EepromTheorems.OrIsBitwise` | uboot/cmd/eeprom.c:97-97 | inserting the device address is bitwise or |
| `EepromTheorems.LocateByNumbers` | uboot/cmd/eeprom.c:85-97 | chip and address in it of an offset, with one and with two address bytes |
| `EepromTheorems.FirstBlock` | uboot/cmd/eeprom.c:85-97 | offsets of the first block lie on the device itself |
| `EepromTheorems.PageSizes` | uboot/cmd/eeprom.c:111-114 | the page sizes by the number of page bits |
| `EepromTheorems.LocateInjective` | uboot/cmd/eeprom.c:80-100 | different selectable offsets are different cells |
| `EepromTheorems.ChunkStays` | uboot/cmd/eeprom.c:102-123 | no chunk crosses a page or a chip-select block |
| `EepromTheorems.CounterWraps` | uboot/cmd/eeprom.c:194-198 | the address counter of the chip stays in its page and goes round in it |
| `EepromTheorems.StoreEffect` | uboot/cmd/eeprom.c:125-151 | bytes stored inside a page go to exactly their cells although the address counter wraps |
| `EepromTheorems.WriteTouchesOnlyRange` | uboot/cmd/eeprom.c:153-175 | no cell outside the range changes, whatever transfers fail |
| `EepromTheorems.WriteStores` | uboot/cmd/eeprom.c:153-204 | after a write call without faults every handled byte is in its cell, when no two offsets share one |
| `EepromTheorems.WriteSucceeds` | uboot/cmd/eeprom.c:153-204 | and the write reports success |
| `EepromTheorems.ReadReturns` | uboot/cmd/eeprom.c:153-186 | a read call without faults returns the cells of the bytes it handles in order and leaves the rest of the buffer, which is all of it when the range leaves 32 bits |
| `EepromTheorems.ReadSucceeds` | uboot/cmd/eeprom.c:153-186 | it reports success and changes no cell |
| `EepromTheorems.WriteReadRoundTrip` | uboot/cmd/eeprom.c:153-204 | reading after writing returns the written bytes |
| `EepromResult.RoundTripIff` | uboot/cmd/eeprom.c:80-204 | every write to a range is read back if and only if the range ends below 2^32 and no two of its offsets denote one cell |
| `EepromResult.BlocksAlias` | uboot/cmd/eeprom.c:80-100 | two offsets that denote one cell, because the block number is or-ed into the device address |
| `EepromResult.WrappedMovesNothing` | uboot/cmd/eeprom.c:156-161 | a range that leaves 32 bits is neither written nor read, and success is reported |
| `EepromResult.LastAddressFails` | uboot/cmd/eeprom.c:156-161 | the last address of the 32-bit range on a bus without faults is such a case |
| `EepromResult.ResultIsLastTransfer` | uboot/cmd/eeprom.c:161-175 | the result of a write is 1 exactly when its last transfer, whose number is counted, is stopped short |
| `EepromResult.ReadResultIsLastTransfer` | uboot/cmd/eeprom.c:161-175 | the same for a read |
| `EepromResult.EarlyErrorIsMasked` | uboot/cmd/eeprom.c:161-175 | whenever any chunk but the last is stopped short and the later ones are not, the write reports success and the bytes not moved are not stored |
| `EepromResult.EarlyReadErrorIsMasked` | uboot/cmd/eeprom.c:161-175 | a read in that case reports success with stale bytes in the buffer |
| `EepromResult.MaskedErrorExists` | uboot/cmd/eeprom.c:161-175 | a concrete such write |
| `EepromResult.WriteHonestIff` | uboot/cmd/eeprom.c:153-204 | a success that the call reports means that the data was written, whatever the bus does, if and only if the range ends below 2^32 and is one chunk |
| `EepromResult.ReadHonestIff` | uboot/cmd/eeprom.c:153-186 | a success that the call reports means that the data was read, whatever the bus does, if and only if the range ends below 2^32 and is one chunk |
| `FdtProp.ComputePrintable` | uboot/cmd/fdt.c:807-842 | the scan decides the specification of a printable string list |
| `FdtProp.ScanMeaning` | uboot/cmd/fdt.c:819-842 | a null-terminated value is accepted exactly when printable, without an empty string after the first |
| `FdtProp.PrintableIff` | uboot/cmd/fdt.c:807-842 | exactly which values are taken for strings, by byte values |
| `FdtProp.FormatChosen` | uboot/cmd/fdt.c:850-899 | which of the four forms is printed, with the limit of 64 bytes and the first character |
| `FdtProp.PrintCells` | uboot/cmd/fdt.c:876-885 | the printed cells |
| `FdtProp.PrintBytes` | uboot/cmd/fdt.c:886-898 | the printed bytes |
| `FdtProp.PrintStrings` | uboot/cmd/fdt.c:861-872 | the printed strings with their separators |
| `FdtProp.PrintDataLoop` | uboot/cmd/fdt.c:850-899 | the format chosen and its text |
| `FdtProp.ParseCellsLoop` | uboot/cmd/fdt.c:727-758 | cells over several arguments, with the conversion error and the read behind the last argument |
| `FdtProp.ParseBytesLoop` | uboot/cmd/fdt.c:759-781 | bytes over several arguments, with the bad character and the read behind the last argument |
| `FdtProp.ParsePropLoop` | uboot/cmd/fdt.c:718-799 | the three formats |
| `FdtPropTheorems.ValueOfNibbles` | uboot/lib/strto.c:36-40 | the digit loop reads back the digits of a number |
| `FdtPropTheorems.StrtoulCell` | uboot/lib/strto.c:16-46 | a number printed as 0x and eight digits is read back |
| `FdtPropTheorems.StrtoulByte` | uboot/lib/strto.c:16-46 | a number printed as two digits is read back in base 16 |
| `FdtPropNumbers.DigitsMean` | uboot/lib/strto.c:36-40 | the digit loop computes the sum of the digits times the powers of the base, modulo 2^32, in any base |
| `FdtPropNumbers.DecimalNumber` | uboot/lib/strto.c:33-40 | decimal text means its decimal value |
| `FdtPropNumbers.OctalNumber` | uboot/lib/strto.c:22-40 | text after a leading zero means its octal value |
| `FdtPropNumbers.HexNumber` | uboot/lib/strto.c:22-40 | text after 0x means its hexadecimal value |
| `FdtPropNumbers.BareHexNumber` | uboot/lib/strto.c:36-40 | text read in base 16 means its hexadecimal value |
| `FdtPropNumbers.DigitPrinted` | uboot/cmd/fdt.c:880-895 | digits are printed in lower case |
| `FdtPropNumbers.CellsAreBigEndian` | uboot/cmd/fdt.c:741-743 | a cell is stored and read with its highest byte first |
| `FdtPropNumbers.SkipsOnlySpaces` | uboot/cmd/fdt.c:754-755 | only spaces are skipped between numbers |
| `FdtPropNumbers.TenIsTen` | uboot/cmd/fdt.c:727-758 | the argument `<10>` is the cell ten |
| `FdtPropTheorems.CellsParse` | uboot/cmd/fdt.c:727-758 | cell text split at any of its spaces is parsed to the cells |
| `FdtPropTheorems.BytesParse` | uboot/cmd/fdt.c:759-781 | byte text split at any of its spaces is parsed to the bytes |
| `FdtPropTheorems.StringsCopy` | uboot/cmd/fdt.c:782-797 | copying the strings of a null-terminated value gives the value |
| `FdtPropText.ReadUndoesPrintIff` | uboot/cmd/fdt.c:861-872 | splitting the printed text returns the printed strings if and only if none holds a separator and none but the last ends in the beginning of one |
| `FdtPropText.ReaderTotal` | uboot/cmd/fdt.c:861-872 | the strings read back never hold more characters than those printed |
| `FdtPropTheorems.ParseUndoesPrint` | uboot/cmd/fdt.c:718-899 | parsing what is read from the printed text gives back the value |
| `FdtPropTheorems.AngleStringFails` | uboot/cmd/fdt.c:727-731 | the string of one angle bracket does not survive: what is read from its text is an unfinished list |
| `FdtPropExact.ShortNumber` | uboot/lib/strto.c:16-46 | fewer than four characters make a number below 2^16 |
| `FdtPropExact.CellsNeedText` | uboot/cmd/fdt.c:727-758 | a value in which no cell starts with two null bytes is not longer than the cell text it is parsed from |
| `FdtPropExact.BytesNeedText` | uboot/cmd/fdt.c:759-781 | byte text is at least as long as its data |
| `FdtPropExact.CopyEndsInNull` | uboot/cmd/fdt.c:782-797 | copied strings end in a null byte, so a value that does not is never given back |
| `FdtPropExact.StringsOfCopy` | uboot/cmd/fdt.c:782-797 | the strings of the copied data are the arguments |
| `FdtPropExact.BracketFails` | uboot/cmd/fdt.c:718-899 | a string list that starts with a bracket is never parsed to itself |
| `FdtPropExact.SeparatorValueFails` | uboot/cmd/fdt.c:861-872 | two values with one printed text, of which the one with the separator inside its string is lost |
| `FdtPropExact.SeparatorAcrossStrings` | uboot/cmd/fdt.c:861-872 | two string lists with one printed text, whose separators straddle a string end |
| `FdtPropExact.RoundTripIff` | uboot/cmd/fdt.c:718-899 | parsing what is read from the printed text gives back the value if and only if it is not a string list that cannot be split, starts with a bracket or ends in a newline |
| `FdtPropOverrun.BytesOverrunIff` | uboot/cmd/fdt.c:759-781 | the byte parser reads behind its arguments if and only if they are hexadecimal numbers and spaces throughout |
| `FdtPropOverrun.ConsumedIff` | uboot/lib/strto.c:16-46 | numbers taken one after the other use up a text exactly when its words are decimal digits or 0x and hexadecimal digits |
| `FdtPropOverrun.CellsOverrunIff` | uboot/cmd/fdt.c:727-758 | the cell parser reads behind its arguments if and only if each is a row of such words |
| `FdtPropOverrun.OverrunIff` | uboot/cmd/fdt.c:718-799 | the same for the whole parser |
| `FdtTree.FdtPrint` | uboot/cmd/fdt.c:955-1021 | lines printed and tags consumed by the level-counter loop, every line indented by at most 31 tabs |
| `FdtTree.WalkPrintsItems` | uboot/cmd/fdt.c:955-1021 | walking the tags of a node's contents prints them recursively and goes on behind them |
| `FdtTree.WalkTooDeep` | uboot/cmd/fdt.c:969-973 | contents nested too deep make the walk fail |
| `FdtTree.PrintsListing` | uboot/cmd/fdt.c:955-1021 | the recursive printer adds the listing of the items, part by part, to what was printed before |
| `FdtTree.LinesCounted` | uboot/cmd/fdt.c:958-1008 | every line is listed exactly as often as the tree has something for it: each property and node down to the depth once with its level, name and value, empty properties without a value, "/" for the empty name, and each nop |
| `FdtTree.PrintIsRecursivePrint` | uboot/cmd/fdt.c:907-1022 | the printer succeeds exactly on trees nested fewer than 32 deep; it then prints the listing of the node and stops before any sibling |
| `FdtTree.ChildLoop` | uboot/cmd/fdt.c:324-358 | the count or name that the loop computes |
| `FdtTree.DescendantsIgnored` | uboot/cmd/fdt.c:336-351 | nodes below a child are neither counted nor named |
| `FdtTree.NoMoreChildren` | uboot/cmd/fdt.c:336-351 | nothing behind the node's end is counted |
| `FdtTree.ChildLoopIsSubNames` | uboot/cmd/fdt.c:324-358 | the loop gives the number of direct subnodes and the name of each by index |
| `Checksum.ComputeCrc` | uboot/cmd/armflash.c:38-57 | the complement of the end-around-carry sum of the words, or 0 for a bad length: the word that makes the sum of the memory cells at start, start + 4, ... a multiple of 2^32 - 1, all ones only for the sum 0 |
| `Checksum.FoldUnique` | uboot/cmd/armflash.c:47-55 | that sum is the one word congruent to the plain sum modulo 2^32 - 1 that is zero only for zero |
| `Checksum.AddFolds` | uboot/cmd/armflash.c:51-54 | one round is end-around-carry addition |
| `Checksum.CrcPermutes` | uboot/cmd/armflash.c:38-57 | the order of the words does not matter |
| `Checksum.StoredChecksumVerifies` | uboot/cmd/armflash.c:137-142 | words one of which is the checksum of the others check to zero |
| `Checksum.OneWordChange` | uboot/cmd/armflash.c:38-57 | changing one word goes unnoticed exactly when 0 and all-ones are exchanged among words not all zero |
| `Elf.LoadPhdr` | uboot/cmd/elf.c:40-52 | one segment: file bytes, then zeros, other memory unchanged, also where it overwrites the image |
| `Elf.LoadImagePhdr` | uboot/cmd/elf.c:30-55 | memory after all segments, loaded one after the other |
| `Elf.LoadShdr` | uboot/cmd/elf.c:77-101 | one section by its header fields: copied, cleared or skipped, other memory unchanged |
| `Elf.LoadImageShdr` | uboot/cmd/elf.c:57-104 | memory after all sections, loaded one after the other |
| `Elf.LastSectionWins` | uboot/cmd/elf.c:75-101 | the last section that holds an address decides what is there |
| `Elf.LastSegmentWins` | uboot/cmd/elf.c:40-52 | the last segment that holds an address decides what is there |
| `Elf.SegmentBytes` | uboot/cmd/elf.c:40-52 | a segment loaded with disjoint others holds the image bytes at its offset and then zeros |
| `Elf.OutsideSegments` | uboot/cmd/elf.c:40-52 | memory in no segment is as it was |
| `Elf.SegmentsLoaded` | uboot/cmd/elf.c:30-55 | every one of any number of disjoint segments is loaded and all other memory is unchanged |
| `Elf.LoadersAgree` | uboot/cmd/elf.c:30-104 | both loaders leave the same memory when the sections tile the segments |
| `Ini.RstripLoop` | uboot/cmd/ini.c:40-47 | trailing white space is removed |
| `Ini.LskipLoop` | uboot/cmd/ini.c:50-55 | leading white space is skipped |
| `IniTheorems.RstripMeans` | uboot/cmd/ini.c:40-47 | only white space is taken off the end |
| `IniTheorems.LskipMeans` | uboot/cmd/ini.c:50-55 | only white space is skipped at the start |
| `IniTheorems.CutNulMeans` | uboot/cmd/ini.c:94-96 | a line ends before its first null character |
| `IniTheorems.WhiteSpace` | uboot/lib/ctype.c:16-40 | which characters are white space |
| `Ini.FindLoop` | uboot/cmd/ini.c:60-70 | the first place of the character or of a comment |
| `Ini.Memgets` | uboot/cmd/ini.c:80-103 | one whole line is taken and the rest of the memory is left |
| `Ini.ReadPair` | uboot/cmd/ini.c:167-198 | name and value of a line, without comment, white space and quotes |
| `Ini.ReadLine` | uboot/cmd/ini.c:137-198 | what a line means |
| `Ini.IniParse` | uboot/cmd/ini.c:117-201 | handler calls and result of the whole file |
| `IniTheorems.PieceIsLine` | uboot/cmd/ini.c:80-103 | a line read takes exactly one line |
| `IniTheorems.PiecesAreLines` | uboot/cmd/ini.c:80-103 | the lines read are whole lines and concatenate to the file |
| `IniTheorems.ReportsFirstError` | uboot/cmd/ini.c:135-200 | the result is the number of the first line that is malformed or refused by the handler, or 0 if there is none |
| `IniTheorems.HeadMeaning` | uboot/cmd/ini.c:156-166 | a rendered heading sets the section to the first 49 characters of its name |
| `IniTheorems.PairLine` | uboot/cmd/ini.c:167-198 | a rendered pair, with either separator, white space around it, with or without quotes and remark, makes its call |
| `IniTheorems.MalformedIff` | uboot/cmd/ini.c:139-198 | a line is an error if and only if it is no remark and lacks the closing bracket of a heading, or both separators of a pair, before a comment |
| `IniTheorems.ContinuedLine` | uboot/cmd/ini.c:145-154 | an indented line makes a call for the name before it |
| `IniTheorems.RemarkLine` | uboot/cmd/ini.c:139-144 | remarks and blank lines make no call and no error |
| `IniTheorems.RenderParses` | uboot/cmd/ini.c:117-201 | rendered headings, pairs, continuations and remarks make exactly their calls, from any state without error |
| `IniTheorems.RenderFits` | uboot/cmd/ini.c:91-94 | a rendered file meets the line limit exactly when each entry does |
| `IniTheorems.RoundTrip` | uboot/cmd/ini.c:117-201 | parsing a rendered file makes exactly its calls in order and returns 0 |

## Left out

- The programs under `baremetal/`: register writes and delay loops.
- Command argument handling, printing, environment access and help text of all commands.
- `abbrev_spec`, `flash info` and hardware sector protection in `flash.c`; `parse_bank` and `load_image` in `armflash.c`.
- The other commands (`bootm`, `disk`, `bootmenu`, `i2c`, `gpt`, `ethsw`, ...): tables, terminal interaction, or logic that lives elsewhere.
- libfdt other than `fdt_next_node`, and malformed structure blocks: tags are taken as decoded.
- Fdc.Floppy.ReadData: requests that start or run past the end of the disk, the result bytes of `fdc_terminate`, drive setup, and the polling loops and their timeouts; one device event stands for each byte or command.
- Fdc.Floppy.BuildCmd: a command byte that the driver does not name, which keeps the lengths of the command before it.
- Fdc.Floppy.IssueCmd: the same command bytes; result bytes after the first are arbitrary.
- Efi.BuildMemTable: allocation failure, descriptor sizes other than that of the structure, and what becomes of attributes when entries merge.
- EfiTheorems.TableIsCanonical: needs comparable, disjoint and non-empty regions below 2^64.
- StorageEnum.Enumerator.ApiDevEnum: a missing `device_info`, clients that pass back other cookies, and devices that come and go during a run.
- Eeprom.Driver.Write: FRAM and SPI builds, write protection, and page sizes above 256 bytes.
- EepromResult.WriteHonestIff: ranges below 2^32 in which two offsets share a cell, where a later chunk can store by accident what an earlier one lost.
- Efi.SmallTablesSortIff: the exact condition for more than six regions; for those only that comparable starts are enough.
- FdtProp.ParsePropLoop: the size of the caller's data buffer.
- FdtPropExact.RoundTripIff: escapes and substitutions of the command line; arguments are taken as read from the text.
- FdtTree.FdtPrint: lines are modelled as calls of the printer, not as characters; unknown tags, negative property lengths and missing names do not occur.
- Checksum.ComputeCrc: lengths of 2^31 and more, where the loop counter overflows.
- Elf.LoadPhdr: the loader assumes a valid image: segments with more file bytes than memory, or whose copy overlaps its own source, have no defined meaning.
- Elf.LoadImagePhdr: header decoding, the entry point and cache flushes; the headers are taken as read before loading.
- Elf.LoadShdr: sections whose copy overlaps its own source.
- Elf.LoadImageShdr: the same sections.
- Ini.IniParse: lines that fill the line buffer, which the parser leaves unterminated and then reads past; strings are values here, not cut in place; the handler is a list of verdicts.
