# Verified model of libzbc's request cutting and zone reporting

libzbc drives zoned disks through SCSI (ZBC) and ATA (ZAC) commands. Most of what it does is to cut
one request into many bounded commands, or to fetch one list in many pages, and to make the pieces
mean what the single request would have meant. This project models that part of the library and
proves it, down to the bytes of commands and replies where a decision depends on them.

* `Bits`, `Errors`, `ByteCodec`: C masks and joins on unbounded integers; byte order, ATA getters, LBA
  fields.
* `IoVector`, `IoVectorProofs`: cutting a scatter/gather list at a sector offset under a budget of
  memory pages. A vector means the list of byte addresses it covers.
* `VectorIo`, `IoRuns`: vectored reads and writes. A `Device` is any driver that fails or completes a
  non-empty part of a command; a write is accepted only at the write pointer. What is proved of every
  run of commands is stated on the recorded trace.
* `Zones`, `ZoneWire`, `ZoneCommand`, `ZoneReport`: zone tables and filters, REPORT ZONES commands and
  replies in both byte orders, the paging loop, and the listing of all zones.
* `ZoneOpCommand`, `ZoneOps`: the commands of zone operations, the count, and its emulation.
* `Sense`, `Realms`, `Activation`: extended errors, recomputed realm lengths, zone activation.
* `ReadZone`, `GuiMerge`: two clients, the zone reader and the filter of the viewer.

Addresses are indices into one byte array, sizes are unbounded integers, and 32-bit and 64-bit
truncation is written out where the code can reach it. Page and block sizes are powers of two. A host
is little-endian. Drives and drivers are methods whose contracts allow every behaviour named there;
their bodies only show that the contracts can be met.

What the model found false of the code, with the exact condition under which it holds and an input for
which it does not:

* Page counts are 32-bit: `BudgetExactly` says when a converted vector stays within its page budget, and
  `HugeBufferOverrunsBudget` cuts a 16 TiB buffer as zero pages.
* A request of 2^55 sectors or more can pass the size check, whose byte count wraps around 64 bits
  (`AdmitClipsExactly`, `LargeRequestAdmitted`).
* Aligned totals do not make aligned commands: `ChunksAlignedExactly` needs every buffer aligned, and
  `UnalignedChunk` gives the chunk that is not.
* A REPORT ZONES EXT buffer of 2^16 blocks or more is not the one the drive sees (`SizeCarriedExactly`,
  `LargeReportLost`).
* A listing can take more commands than full buffers hold its array (`ArrayBoundExactly`): with room for 7
  zones in a buffer, an array of 10, and 9 zones of which the first 8 match, it takes 3 and not 2
  (`OneCommandMore`). A listing of all zones never does (`ArrayBoundOfAllZones`).
* A count of 2^16 zones or more is truncated in the command but not in the emulation
  (`CountAgreesExactly`, `LargeCountLost`), and the emulation aims at zone starts only for equal lengths
  (`TargetsExactly`, `UnequalLengthsMissed`).
* With blocks larger than 512 bytes a realm's zone count can come out wrong (`RealmLengthExactly`,
  `OneZoneRealmLost`).
* A short descriptor can make the sense walk record foreign bytes: exactly when is said of one turn
  (`TurnRecordsOwnExactly`) and of the whole walk (`WalkRecordsMeaningExactly`, `ShortDescriptorMisread`).

## Model

| member | source | states |
|---|---|---|
| Bits.AndMask | lib/zbc.h:264-271 | the alignment tests `x & (size - 1)` are remainders for sizes that are powers of two |
| Bits.AndMaskExactly | lib/zbc.h:264-271 | and for no other sizes |
| Bits.AndClearsLowBits | lib/zbc_scsi.c:604-606 | the mask `& ~mask` rounds down to a multiple of the block |
| IoVector.CountSectors | lib/zbc.h:276-285 | the counted sectors are the size of the vector's address list |
| IoVector.DistinctExactly | lib/zbc.h:276-285 | no address repeats in a vector if and only if its buffers are pairwise disjoint |
| IoVector.FitEntry | lib/zbc.c:1249-1269 | the page check of one entry, with 32-bit page counts, gives the length and the pages of `Cut` |
| IoVectorProofs.BudgetIsQuotient | lib/zbc.c:1226-1226 | the page budget is the number of whole pages in the largest transfer |
| IoVectorProofs.NeedExactly | lib/zbc.c:1249-1252 | the pages charged for an entry are exactly as many as hold it from its place in a page on |
| IoVectorProofs.CutExactly | lib/zbc.c:1249-1269 | an entry is whole if its 32-bit count fits, and otherwise the longest part that the pages that are left hold |
| IoVector.ConvertInPlace | lib/zbc.c:1222-1282 | the in-place loop writes exactly the entries of the specification function `Convert`, at most one per buffer, and returns the whole sectors they hold |
| IoVectorProofs.ConvertSlices | lib/zbc.c:1234-1282 | slicing: the entries cover exactly the bytes of the request from the offset on, in whole sectors (so `count >> 9` loses nothing) and never more than requested |
| IoVectorProofs.ConvertKeepsOrder | lib/zbc.c:1234-1276 | every entry is a part of one source buffer, named in strictly increasing order, with no more entries than buffers |
| IoVectorProofs.PagesTouchedExactly | lib/zbc.c:1249-1259 | the pages counted for an entry are those that hold a byte of it |
| IoVectorProofs.BudgetExactly | lib/zbc.c:1226-1274 | for any vector, the pages really touched, counted from the addresses, fit the budget if and only if the 32-bit count detects the peak: the pages needed up to the first buffer that exceeds the budget |
| IoVectorProofs.ConvertKeepsBudget | lib/zbc.c:1226-1274 | where it does, the pages touched never exceed what is charged, nor the budget |
| IoVectorProofs.ConvertOverruns | lib/zbc.c:1249-1259 | where it does not, the buffers up to the peak are taken in full |
| IoVectorProofs.PeakBound | lib/zbc.c:1249-1259 | the peak of a request is at most its own pages, the budget and two more |
| IoVectorProofs.CommandWithinDeviceLimit | lib/zbc.c:1226-1279 | hence exactly when a converted request stays in the pages of `zbd_max_rw_sectors`, and then in its sectors |
| IoVectorProofs.HugeBufferOverrunsBudget | lib/zbc.c:1249-1259 | a concrete 16 TiB request that overruns the page budget |
| IoVectorProofs.SingleBufferBudget | lib/zbc.c:1249-1270 | on one buffer the peak is what the whole request needs |
| IoVectorProofs.ConvertFinishesOrFills | lib/zbc.c:1234-1274 | tightness: a conversion of any size stops only when the request is complete or the whole budget is spent |
| IoVectorProofs.ConvertProgress | lib/zbc.c:1253-1270 | exactly when a conversion yields nothing: no page, or one page and an address inside a page whose 32-bit need is more than one |
| IoVectorProofs.ConvertAligned | lib/zbc.c:1234-1279 | with aligned buffers a chunk from a block boundary ends on one or completes the request |
| IoVectorProofs.PowerBlockSize | lib/zbc.h:264-271 | every power of two from a sector to a page is a block size for this |
| IoVectorProofs.ChunksAlignedExactly | lib/zbc.c:1309-1322 | chunks of an aligned request are block aligned for every offset and budget if and only if every buffer is |
| VectorIo.AdmitClipsExactly | lib/zbc.c:1298-1322 | a request is refused, empty, or clipped to the capacity as documented, even when its end wraps 64 bits, and admitted as it is in test mode unless empty, if and only if its count of bytes does not wrap below the size limit |
| VectorIo.LargeRequestAdmitted | lib/zbc.c:1298-1299 | a concrete request of 2^55 sectors that is clipped instead of refused |
| VectorIo.FirstCommand | lib/zbc.c:1341-1350 | every admitted request issues a command, the first one at its offset |
| VectorIo.ReadMeans | lib/zbc.c:1341-1364 | the state of a read, byte by byte: disjoint buffers hold the sectors, and no other address has changed |
| VectorIo.WriteMeans | lib/zbc.c:1447-1470 | the state of a write, byte by byte: the gathered bytes from the first pointer to the new one, and the old ones elsewhere |
| VectorIo.ChunkCovers | lib/zbc.c:1341-1346 | each command covers the sectors of the request that follow those already done |
| VectorIo.ReadContinues | lib/zbc.c:1341-1362 | a driver that completes any part, and scribbles on the rest of its buffers, keeps the read correct: a prefix delivered, nothing else touched |
| VectorIo.Device.ReadCommands | lib/zbc.c:1341-1364 | the read loop ends with all sectors delivered, or with the error of the first command that did not progress (-EIO for zero) |
| VectorIo.Device.Read | lib/zbc.c:1381-1388 | scatter read is exact: success returns the clipped count with the buffers equal to the disk; no other memory changes in any outcome; in test mode every non-empty request of legal size reaches the drive |
| VectorIo.WriteContinues | lib/zbc.c:1447-1468 | a command that writes some sectors at the pointer, even if it then fails, extends the written prefix |
| VectorIo.Device.WriteCommands | lib/zbc.c:1447-1470 | the write loop advances the pointer by the whole count, or stops with exactly a prefix of the data on the disk |
| VectorIo.Device.Write | lib/zbc.c:1487-1494 | gather write: the disk differs from before only by a prefix of the gathered bytes at the old write pointer; in test mode every non-empty request of legal size reaches the drive |
| VectorIo.CommandsStartAtPointer | include/libzbc/zbc.h:2253-2260 | started at the write pointer, every command is issued at the pointer of that moment |
| VectorIo.RunPrefix | lib/zbc.c:1341-1362 | every command of a run starts where the earlier, successful ones stopped |
| IoRuns.CommandsWithinLimits | lib/zbc.c:1343-1346 | exactly when a command of a run respects the page budget, and then the largest transfer |
| IoRuns.SmallRequestsWithinLimits | lib/zbc.c:1343-1346 | every command of every request of less than 2^32 pages, less the budget and the buffers, does |
| IoRuns.CommandsMakeProgress | lib/zbc.c:1341-1362 | every command asks for all that is left or spends the whole budget, and exactly when it asks for nothing |
| IoRuns.CommandsAligned | lib/zbc.c:1447-1468 | with aligned buffers and whole-block completions, every command starts on a block boundary and ends on one or at the end of the request |
| IoRuns.CompleteCommandsAdvance | lib/zbc.c:1341-1362 | on one buffer, complete commands advance by equal chunks |
| IoRuns.SingleBufferCommands | lib/zbc.c:1253-1270 | the exact number of commands of a completed request on one buffer, aligned to pages or not |
| IoRuns.AlignedBufferCommands | lib/zbc.c:1226-1270 | on a buffer that starts a page, and a largest transfer of whole pages, the sectors divided by the largest transfer, rounded up |
| IoVectorProofs.ChargedIsMoved | lib/zbc.c:1249-1274 | what a conversion of any size is charged, it moves, but for two pages for each entry |
| IoVectorProofs.EntriesEndBuffers | lib/zbc.c:1234-1276 | a conversion has one entry for each buffer that it ends, and at most one more |
| IoRuns.UnfinishedCommands | lib/zbc.c:1341-1362 | on any vector, unfinished complete commands have moved their whole budgets, but for two pages for each buffer ended and each command |
| IoRuns.VectorCommands | lib/zbc.c:1341-1362 | hence a bound on the commands of a request on any vector, from its size and its number of buffers |
| ReadZone.MapIov | lib/zbc.c:1499-1525 | the entries concatenate to the buffer, each at most `iovlen`, as few as possible; exactly when it is refused |
| ReadZone.ReadOnce | tools/read_zone/zbc_read_zone.c:388-409 | one I/O of the tool, mapped or plain, fills the buffer with the sectors up to the end of the device or returns the error of the mapping, the admission or the commands; no other memory changes, and a negative count is always an error |
| ReadZone.NegativeNotAdmitted | tools/read_zone/zbc_read_zone.c:374-375 | a negative count, passed on as unsigned, is never admitted |
| ReadZone.ReadableExactly | tools/read_zone/zbc_read_zone.c:363-366 | reading ends at the write pointer of a sequential write required zone that is not full, and at the zone end otherwise |
| ReadZone.StreamZone | tools/read_zone/zbc_read_zone.c:370-444 | the tool writes exactly the bytes from the offset to the write pointer, the zone end, the end of the device or the I/O limit, even for a write pointer past its zone; it succeeds if and only if it got there, and otherwise its last I/O is unaligned, out of range, or ends in a command without progress |
| ByteCodec.SetBytes | lib/zbc_sg.c:656-670 | stores the low bytes of a host integer most significant first and nothing else |
| ByteCodec.GetBytes | lib/zbc_sg.c:675-689 | loads the value of big-endian bytes of every width up to 8 |
| ByteCodec.StoreThenLoad | lib/zbc_sg.h:355-426 | a load after a store gives the value back modulo its width |
| ByteCodec.BigEndianRoundTrip | lib/zbc_sg.c:656-689 | decoding an encoded value keeps its low bytes |
| ByteCodec.BigEndianFaithful | lib/zbc_sg.c:675-689 | different bytes decode to different values |
| ByteCodec.BigEndianFirst | lib/zbc_sg.c:675-689 | the first byte is the most significant |
| ByteCodec.AtaGetters | lib/zbc_ata.c:201-226 | the shift-and-or getters read little-endian values |
| ByteCodec.AtaPutLba | lib/zbc_ata.c:231-247 | the interleaved LBA bytes are read back as the LBA by the byte order of ATA PASS-THROUGH (16) (section 12.2 of SAT-3), modulo 2^48 |
| ByteCodec.AtaPutFeatureLba | lib/zbc_ata.c:252-267 | the SET FEATURES form carries an LBA if and only if it has 28 bits |
| Zones.MatchesExactly | include/libzbc/zbc.h:1575-1592 | the reported zones are those containing or after the sector that the option selects |
| Zones.SelectsExactly | include/libzbc/zbc.h:1479-1549 | the reporting options in numbers |
| Zones.MatchesResume | lib/zbc.c:683-691 | from the end of any reported zone exactly the later matches are found, at a greater sector |
| ZoneWire.DecodePrinted | lib/zbc_scsi.c:559-574 | decoding inverts the descriptor layout in both byte orders, whatever the reserved bits, in sectors and without a write pointer where there is none |
| ZoneWire.DescriptorLayout | lib/zbc_scsi.c:559-574 | the place, the byte order and the meaning of every field of a descriptor, with a write pointer exactly for types 2, 3 and 4 |
| ZoneWire.UnitsExactly | include/libzbc/zbc.h:1180-1189 | sectors and blocks convert by 64-bit counts of bytes |
| ZoneCommand.DecodedExactly | lib/zbc_ata.c:1830-1843 | what is decoded from a printed descriptor, with every position in sectors |
| ZoneWire.DecodeReply | lib/zbc_ata.c:1797-1846 | the decoding loop stores what the header, the array and the received bytes allow, and reads no other bytes |
| ZoneWire.ReplyDecodes | lib/zbc_scsi.c:507-576 | a received prefix of a printed report decodes to the zones printed in it |
| ZoneCommand.BuildScsiCommand | lib/zbc_scsi.c:446-450 | the bytes of the command block, clear elsewhere; the drive reads back the start LBA, the buffer size, the partial bit and the option |
| ZoneCommand.BuildAtaCommand | lib/zbc_ata.c:1772-1788 | the same for REPORT ZONES EXT, with a 48-bit LBA and a 16-bit block count |
| ZoneCommand.SizeCarriedExactly | lib/zbc_ata.c:1783-1784 | exactly the buffer sizes that arrive at the drive unchanged |
| ZoneCommand.LargeReportLost | lib/zbc_ata.c:1783-1784 | a concrete buffer, sized for 2^19 - 1 zones, that arrives with no blocks |
| ZoneCommand.BufferHoldsDescriptors | lib/zbc_scsi.c:595-606 | the buffer is a positive number of blocks within the largest transfer and holds all the zones wanted or as many as a transfer can |
| ZoneCommand.BufferIsBlocks | lib/zbc_scsi.c:595-606 | it is a positive number of blocks even if its size wraps around 32 bits |
| ZoneCommand.RoundedSize | lib/zbc_scsi.c:595-606 | it is the least such number for the 32-bit size wanted and the largest transfer |
| ZoneCommand.RoomyExactly | lib/zbc_ata.c:1783-1784 | the numbers of zones whose buffer holds them and arrives unchanged |
| ZoneCommand.RoomyForFewer | lib/zbc.c:673-675 | a buffer that arrives unchanged for an array does so for the rest of it |
| ZoneCommand.MatchesImported | lib/zbc_scsi.c:414-449 | filtering in sectors and in logical blocks find the same zones, even from a sector inside a block |
| ZoneCommand.ContiguousImported | lib/zbc_scsi.c:566-569 | a gap-free table stays gap-free in sectors |
| ZoneReport.PartialAnswerDecodes | lib/zbc_scsi.c:507-576 | whatever page the drive sends, the decoder returns some of the first matches, none only if there is none, and all that fit if the drive fills its buffer |
| ZoneReport.ZonedDrive.DriverReport | lib/zbc_ata.c:1861-1880 | one backend command, from sector to decoded zones, whatever buffer size arrives, returns a page of the matches or counts them all, and fails exactly if the drive does or no header comes back |
| ZoneReport.PagedStep | lib/zbc.c:683-691 | any non-empty page extends the listing and moves to a strictly later sector |
| ZoneReport.ZonedDrive.ReportZones | lib/zbc.c:647-698 | pagination refines filtering: the first matches that fit the array, once and in order, however the drive pages, unless a command fails; and, where the buffer arrives unchanged, the exact number of commands of a drive that fills its buffers, one more than full buffers if array and drive are not used up |
| ZoneReport.ArrayBoundExactly | lib/zbc.c:668-692 | for any table, sector and option, that number is within the buffers that would hold the array, exactly unless fewer zones match than fit, its last buffer is not needed, and the last zone of the drive is not selected |
| ZoneReport.ArrayBoundOfAllZones | lib/zbc.c:688-690 | for a listing of all zones it always is |
| ZoneReport.OneCommandMore | lib/zbc.c:683-684 | a concrete table whose listing takes one more |
| ZoneReport.ZonedDrive.CountZones | include/libzbc/zbc.h:1611-1616 | the count is the number of matches, from one command or none, unless that fails |
| ZoneReport.ZonedDrive.ListZones | lib/zbc.c:703-742 | the listing is all the matches, each a zone of the drive in sectors, over either backend and from any sector, unless a command fails; at the exact cost in commands where the buffer arrives unchanged |
| ZoneOps.OpRunExactly | lib/zbc.c:774-778 | a run changes exactly the zones before the first failure, and returns its error |
| ZoneOps.ApplyExactly | include/libzbc/zbc.h:1645-1670 | a zone that accepts takes the new condition and pointer, and one that denies changes nothing |
| ZoneOps.OpAllExactly | lib/zbc.c:760-761 | an operation on all zones changes each of them as it reacts |
| ZoneOpCommand.ActionCodes | lib/zbc_sg.h:110-132 | the codes of the four operations, which the drive reads back |
| ZoneOpCommand.BuildScsiOp | lib/zbc_scsi.c:684-694 | the bytes of the command block, clear elsewhere; the drive reads back the operation, and all zones or the start block and the low 16 bits of the count |
| ZoneOpCommand.BuildAtaOp | lib/zbc_ata.c:1956-1972 | the same for ZAC MANAGEMENT OUT, with a start of 48 bits |
| ZoneOpCommand.CarriedLbaExactly | lib/zbc_ata.c:1967-1967 | exactly the start blocks that arrive unchanged |
| ZoneOps.WireCountExactly | lib/zbc_scsi.c:694-694 | the command so built means the count asked for if and only if it has 16 bits |
| ZoneOps.CountAgreesExactly | lib/zbc.c:763-779 | counted and emulated operations agree on every table of equal zones, for every operation, if and only if the count has 16 bits |
| ZoneOps.LargeCountLost | lib/zbc_scsi.c:694-694 | a concrete count that means one zone |
| ZoneOps.UnequalLengthsMissed | lib/zbc.c:774-779 | a concrete table on which the emulation aims at no zone start |
| ZoneOps.TargetsExactly | lib/zbc.c:774-779 | stepping by the first length hits the zone starts if and only if the lengths are equal |
| ZoneOps.EmulationHits | lib/zbc.c:774-779 | each emulated command operates on the next zone of the run |
| ZoneOps.EmulateCount | lib/zbc.c:774-779 | the emulation loop ends in the table and the error of the run in order |
| ZoneOps.EmulatedFrom | lib/zbc.c:763-779 | the emulation hits from the start of every zone over zones of its length |
| ZoneOps.ZoneGroupOp | lib/zbc.c:747-781 | from any sector: refused if unaligned, all zones, one zone, the counted run of the command, or, where the emulation hits, the table and error of the run in order, unless its report fails and nothing changes |
| Sense.PrintIsWhole | lib/zbc_sg.c:286-300 | printed descriptors end exactly at the declared end and parse back to themselves |
| Sense.TurnRecordsOwnExactly | lib/zbc_sg.c:290-299 | for descriptors of any length, a turn of the walk records what its descriptor means if and only if it is not a short one that passes the guards |
| Sense.WalkRecordsMeaning | lib/zbc_sg.c:290-301 | unless a turn is such, the walk records the last valid information and the last command-specific value |
| Sense.WalkRecordsMeaningExactly | lib/zbc_sg.c:290-301 | the whole walk does if and only if, for neither value, the last one taken comes from a short descriptor and differs from the last one that a descriptor holds |
| Sense.ProperNeverForeign | lib/zbc_sg.c:292-299 | descriptors of the lengths of section 4.5.2 of SPC-4 never are |
| Sense.ShortDescriptorMisread | lib/zbc_sg.c:292-294 | a concrete empty information descriptor makes it record bytes of the next descriptor |
| Sense.ExtendedError.SetSense | lib/zbc_sg.c:261-319 | what both sense formats, too little data and other formats leave in the extended error |
| Sense.ExtendedError.WalkDescriptors | lib/zbc_sg.c:286-301 | the loop visits the declared bytes, each descriptor once |
| Realms.RealmLengthExactly | lib/zbc_scsi.c:984-1000 | exactly when the recomputed zone count of a realm is right, for every block size |
| Realms.RealmLengthOfSectors | lib/zbc_ata.c:900-915 | with 512-byte blocks it is, exactly unless the realm is the single sector 0 |
| Realms.RealmLengthUnset | lib/zbc_scsi.c:985-997 | no count is computed without an end sector, zones, or a 32-bit zone size |
| Realms.OneZoneRealmLost | include/libzbc/zbc.h:436-440 | a concrete realm that comes out empty |
| Realms.HighSectorIsGreatest | lib/zbc.c:1045-1050 | the high sector is the greatest one whose block is at most the end block |
| Activation.BuildShort | lib/zbc_scsi.c:1038-1103 | the 16-byte form refuses starts and record counts out of range; the bytes of its block, clear elsewhere, carry the rest in their field widths |
| Activation.BuildLong | lib/zbc_scsi.c:1274-1292 | the bytes of the 32-byte form, clear elsewhere, carry the request in their field widths |
| Activation.FormsAgreeExactly | lib/zbc_scsi.c:1086-1103 | both forms carry the same request if and only if domain and zone count fit the short one |
| Activation.ProcessReply | lib/zbc_scsi.c:1109-1203 | status, failing sector, count and records taken from a reply of either form, with or without an array |
| Activation.RecordLayout | lib/zbc_scsi.c:1183-1190 | the place of every field of a record |
| Activation.QueryActivate | lib/zbc_scsi.c:1397-1415 | through either form, what the drive answers to the request that it reads, or the refusal of the short form |
| Activation.FormsSameOutcome | lib/zbc_scsi.c:1397-1415 | for requests in the range of the short form both give the same outcome on every drive |
| Activation.ReportRoundTrip | lib/zbc_scsi.c:1296-1395 | a printed report comes back as its records in sectors, its status and its failing sector |
| GuiMerge.ApplyFilter | tools/gui/gzbc.c:224-237 | an entry is visible and refreshed exactly if its zone is in the report, and the report is used up |
| GuiMerge.MergedExactly | tools/gui/gzbc.c:224-237 | an entry is visible exactly if the report has a zone of its start, and carries what is reported of it |
| GuiMerge.FilteredReportFits | tools/gui/gzbc.c:212-222 | a filtered listing of the same zones meets what the merge needs |

## Left out

- VectorIo.Device.Read: an admitted request holds fewer than 2^55 sectors, so that `count << 9` does not wrap in the conversion. For buffers that overlap only the frame is stated, because their content depends on the order in which a driver fills them.
- VectorIo.Device.Write: the same bound of 2^55 sectors.
- ZoneOps.ZoneGroupOp: where the emulation does not hit, its result is not stated.
- IoVectorProofs.BudgetExactly: budget and buffers together count less than 2^32, as an `int` of buffers and the pages of 2^32 sectors do.
- IoRuns.SingleBufferCommands: stated for drivers that complete every command, as VectorCommands is; with partial completions only the bounds of each command are.
- ReadZone.StreamZone: positions and the capacity in bytes fit 63 bits, and the device is not in test mode.
- Realms.RealmLengthExactly: zone sizes and realm sizes are bounded by 2^32 sectors, so the 32-bit results do not wrap.
- Sense.ExtendedError.SetSense: sense data whose descriptors are not whole, or run past the 64-byte buffer, make the code read outside it; the contract asks for whole descriptors.
- ZoneReport.ZonedDrive.ReportZones: the array is not empty; for an empty one the code returns an uninitialised value.
- ZoneReport.ZonedDrive: the table does not change between commands, a drive that has a match sends at least one whole descriptor, and reserved reporting options select nothing.
- Test mode is modelled for reads and writes only; its zero-count branches follow an earlier return and are unreachable.
- `ioctl`, sysfs, opening and probing of devices, logging, memory allocation failures, signals.
- Zone condition state machines: an operation is any function from a zone to its new condition and pointer or an error.
- The decoding loops of REPORT REALMS and REPORT ZONE DOMAINS, apart from the length arithmetic; ATA activation; statistics, mode and VPD pages.
- The native ATA read and write commands, and the conversion of sector counts to blocks inside the drivers.
- Pattern checking and file errors of the zone reader; the GTK code of the viewer.
- `zbc_write_zone`, which writes from a given offset rather than from the write pointer.
