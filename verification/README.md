# Models of the device engines of SCSI2Pi

This project models the parts of SCSI2Pi that move and keep data, and proves what they promise:

- The block cache (`DiskTrack.dfy`, `Lru.dfy`, `DiskCache.dfy`, `LinuxCache.dfy`) and the READ and WRITE commands of
  disks on top of it (`Disk.dfy`). The medium is a flat sequence of bytes, the *view*. The track cache shows it and
  updates it whatever is evicted, saved or loaded in between, and whichever transfers of the image file fail.
- The tape drive on SIMH images (`Simh.dfy`, `TapeWalk.dfy`, `TapeSpacing.dfy`, `TapeRecords.dfy`, `TapeReading.dfy`,
  `TapeRuns.dfy`, `TapeBoundary.dfy`, `Tape.dfy`, `TapeSession.dfy`). An image is a list of objects. The loops of the
  drive, which read and write words of the file, refine walks over this list, and sessions on the class `Tapes.Tape`
  keep it on object boundaries and read back what they have written.
- The target side of the bus: the phases of the controller (`Controller.dfy`, with the transfer accounting of
  `Transfer.dfy`) and the REQ/ACK handshake (`Handshake.dfy`), which is a state machine of two parties with timeouts
  at any wait.
- The splitting of transfers for the Linux SG driver (`ScsiGeneric.dfy`, with `MemoryUtil.dfy`), dump and restore of
  tapes with s2pdump (`S2pDump.dfy`), and the frame check sequence of the network driver (`Crc.dfy`).

Classes of the program are classes here, with the fields they update and the loops they have. `ImageFile.dfy` stands
for image files: opening, reading and writing may fail at any time, and a write that fails may have stored any part of
its data; a file may also be full, so that nothing is stored. Ghost counters in the file, the bus and the SG driver
count the calls that have failed without need, so that an error of a command can be traced to one of them. Results of
the initiator and of devices that a model does not contain are parameters, for example the `Input` of
`Controllers.Controller.Process`.

`dafny verify dfyconfig.toml` checks everything.

## Findings

Where the program does not do what its documentation or the standards promise, the model does what the program does,
and there is a proof of the exact condition:

- Records of odd length can be written but never be read: the drive goes back by the unpadded length
  (`TapeRuns.OddRecordIsNotRead`). WRITE followed by READ therefore returns the data for even lengths.
- WRITE FILEMARKS does not advance the object number, so that READ POSITION and LOCATE disagree afterwards
  (`TapeRuns.FilemarksAreNotCounted`).
- LOCATE to an object that is not there answers with GOOD, with the head behind the end-of-data object
  (`TapeSessions.LocateMissing`).
- A search that meets an end-of-data object backwards leaves the head one word too far in front, which is usually
  inside of a record (`TapeSpacing.EndOfDataInReverse`). This happens behind such a LOCATE
  (`TapeSessions.LocateMissing`), and not in sessions of completed commands (`TapeSessions.Run`).
- The check for room on a tape adds the position twice. A WRITE needs twice the room of its data
  (`Tapes.Tape.Write`, `TapeSessions.WriteRequests`).
- Records of classes that SIMH reserves are numbered but not counted by LOCATE (`TapeSpacing.ForeignRecordsShift`).
- READ and WRITE compute totals with 32 bits. From 2 GiB on they move fewer sectors, and most of them report GOOD
  (`Disks.MovedSectors`, `Disks.WrittenSectors`, `Disks.FourGigabytes`). With the SG driver they move fewer blocks, or
  none, or fail in the handshake (`ScsiGenerics.TotalBlocks`, `ScsiGenerics.FourGigabytes`,
  `ScsiGenerics.ScsiGeneric.Read`, `ScsiGenerics.ScsiGeneric.Write`).
- The range check of READ(16) and WRITE(16) wraps around 64 bits (`Disks.AcceptedRanges`, `Disks.WrappingRange`).
- Sector addresses are cut to 32 bits behind the range check: READ sends, and WRITE overwrites, other sectors from
  2^32 on (`Disks.ReadAsAskedOnly`, `Disks.OtherSectorIsWritten`, `Disks.FirstLongAddress`).
- A count of 0 in READ(6) and WRITE(6), which stands for 256 blocks, becomes a READ(10) or WRITE(10) of no block with
  the SG driver (`ScsiGenerics.MovedIsAskedFor`).
- READ LONG replaces the track cache after a flush whose result is ignored, which can lose data that were reported as
  stored (`Disks.LoseSector`). It cannot if nothing is unsaved (`Disks.Disk.UseLinuxCache`).
- A dump with blocks of odd length is not a SIMH image because the padding is missing (`S2pDumps.DumpIsImage`).
- A linked command that fails ends with LINKED COMMAND COMPLETE, and the next command is received, where section 7.3 of
  SCSI-2 ends the series. REQUEST SENSE sends its data and then the status of the failed command again
  (`Controllers.AnswersAreDue`).
- A device that takes none of the data of a chunk without an error keeps the controller in DATA OUT forever
  (`Controllers.Controller.KeepReceiving`).

## Model

| member | source | states |
|---|---|---|
| `DiskCaches.DiskCache.ReadSectors` | cpp/devices/disk_cache.cpp:52-66 | A read returns the sector of the flat medium, whatever was evicted, saved or failed to load before; on the medium it fails only if a call of the file that asks for nothing but what the file has has failed during this read |
| `DiskCaches.DiskCache.WriteSectors` | cpp/devices/disk_cache.cpp:68-82 | A write that reports success changes exactly its sector of the flat medium; a write that fails changes nothing of it, although tracks may have been saved or dropped, and on the medium it fails only with a failed call of the file |
| `DiskCaches.DiskCache.Flush` | cpp/devices/disk_cache.cpp:33-38 | The medium does not change; after success the image file is the medium and no track is modified, after a failure, which needs a failed call of the file, only bytes that were unsaved before are missing in the file |
| `DiskCaches.DiskCache.SaveTrack` | cpp/devices/disk_cache.cpp:130-133 | Saving one track keeps every cached track, the file and the medium coherent even if the transfer breaks off in the middle of a run |
| `DiskCaches.DiskCache.Load` | cpp/devices/disk_cache.cpp:149-179 | A track that is read after its predecessor was saved agrees with the flat medium; it is read unless a call of the file fails, and a failed read leaves the slot empty |
| `DiskCaches.DiskCache.Assign` | cpp/devices/disk_cache.cpp:85-147 | The slot that ends up with the track is the slot of the track, an empty slot, or one with the smallest serial number, and no other slot changes |
| `DiskCaches.DiskCache.GetTrack` | cpp/devices/disk_cache.cpp:40-50 | Each access gets the next serial number and returns the coherent track of the sector |
| `DiskCaches.DiskCache.UpdateSerial` | cpp/devices/disk_cache.cpp:181-193 | The serial number counts the accesses up to the wrap of its 32 bits; there, and only there, all serial numbers are cleared, and the tracks stay |
| `DiskCaches.DiskCache.CachedAreMostRecent` | cpp/devices/disk_cache.cpp:85-147 | As long as no track was missing after a failed call of the file and the serial number has not wrapped, the cache holds exactly the 16 most recently used distinct tracks of 256 sectors |
| `Lru.Access` | cpp/devices/disk_cache.cpp:85-147 | Replacing the slot with the smallest serial number keeps serial numbers equal to last uses, and everything dropped older than everything held |
| `Lru.HeldAreMostRecent` | cpp/devices/disk_cache.cpp:85-147 | Slots with such serial numbers hold exactly the most recently used distinct tracks of the whole access history |
| `DiskTracks.WriteDirtyAt` | cpp/devices/disk_track.cpp:82-136 | After a full save each byte of a dirty sector is the byte of the buffer and every other byte is untouched |
| `DiskTracks.RunIsSectors` | cpp/devices/disk_track.cpp:104-130 | One transfer for a run of dirty sectors leaves the file as writing its sectors one by one |
| `DiskTracks.DiskTrack.Load` | cpp/devices/disk_track.cpp:34-80 | A loaded track holds the bytes of its range of the file and no dirty sector; a track that is already loaded is not read again |
| `DiskTracks.DiskTrack.Save` | cpp/devices/disk_track.cpp:82-136 | A successful save stores exactly the dirty sectors and clears all flags; a failed one keeps all flags and touches no clean byte |
| `DiskTracks.DiskTrack.WriteSector` | cpp/devices/disk_track.cpp:155-176 | A sector becomes dirty exactly if its contents change |
| `Disks.AcceptedRanges` | cpp/devices/disk.cpp:540-581 | For a ready drive the range check accepts exactly the ranges on the medium, and for READ(16) and WRITE(16) also those whose end wraps around 64 bits |
| `Disks.FieldsOf` | cpp/devices/disk.cpp:545-569 | The start and the count of a command are the numbers that its own bytes are, highest byte first; with 6 bytes the count 0 stands for 256 |
| `Disks.CommandIsDecoded` | cpp/devices/disk.cpp:545-569 | For every start and count that fit, the drive decodes them from the command that an initiator builds byte by byte |
| `Disks.ProcessedCommands` | cpp/devices/disk.cpp:540-581 | An accepted READ or WRITE moves data exactly if a byte of its count is not 0, and with 6 bytes always |
| `Disks.WrappingRange` | cpp/devices/disk.cpp:571-580 | An instance: the last sector of 64 bits and the one behind it are accepted on any medium that is not empty |
| `Disks.Disk.Read` | cpp/devices/disk.cpp:199-215 | READ in any caching mode sends the sectors of the range in order, each from its 32-bit address, or those in front of a medium error, and rejects what the check rejects; a medium error with a positive number of bytes needs a failed call of the file; the number of sectors is the one of `Disks.MovedSectors` |
| `Disks.Disk.Write` | cpp/devices/disk.cpp:217-250 | WRITE in any caching mode stores a prefix of the data, each sector at its 32-bit address, and nothing else; all sectors that are moved if it succeeds, as many bytes as went over the bus, and whole sectors with the track cache. A fault needs a failed call of the file, and a reset a failed handshake; with write-through the file is flushed |
| `Disks.Disk.ReadData` | cpp/devices/disk.cpp:384-399 | A chunk of a READ is read from the address cut to 32 bits, for any address |
| `Disks.Disk.WriteData` | cpp/devices/disk.cpp:401-432 | A chunk of a WRITE is stored, or a part of it, at the address cut to 32 bits, for any address, and nothing else changes |
| `Disks.ReadAsAskedOnly` | cpp/devices/disk.cpp:390-394 | READ sends the sectors that were asked for, whatever the medium holds, if and only if no address is cut: the range ends within 2^32 sectors, or begins within them if it is moved in one piece |
| `Disks.OverwriteAsAsked` | cpp/devices/disk.cpp:422-427 | Under the same condition a successful WRITE changes the range that was asked for, and nothing else |
| `Disks.LandsAsAsked` | cpp/devices/disk.cpp:422-427 | Under the same condition a WRITE that is not completed stores a prefix of its data at the range, and changes nothing else |
| `Disks.OtherSectorIsWritten` | cpp/devices/disk.cpp:422-427 | A WRITE of one sector from 2^32 on overwrites the sector of the cut address and leaves its own as it was |
| `Disks.FirstLongAddress` | cpp/devices/disk.cpp:540-581 | An instance: READ(16) or WRITE(16) of sector 2^32 is accepted on a medium of 2^32 + 1 sectors, and its address is 0 |
| `Disks.MovedSectors` | cpp/devices/disk.cpp:199-250 | READ moves all sectors if and only if the total is below 2^31 bytes |
| `Disks.WrittenSectors` | cpp/devices/disk.cpp:236-250 | WRITE moves all sectors if and only if the total is below 2^31 bytes, and fewer otherwise |
| `Disks.FourGigabytes` | cpp/devices/disk.cpp:199-250 | A READ or WRITE of 0x800000 sectors of 512 bytes moves one sector; with LINUX_OPTIMIZED the WRITE stores nothing and succeeds |
| `Disks.Disk.FlushCache` | cpp/devices/disk.cpp:180-185 | A flush does not change the medium; after success the file shows it; it fails only with a failed call of the file |
| `Disks.Disk.UseLinuxCache` | cpp/devices/disk.cpp:270-278 | Replacing the track cache keeps the medium if the flush has succeeded, and whatever the flush does if nothing is unsaved; it loses only unsaved bytes; on a file that takes no more data the medium survives if and only if the file shows it already |
| `Disks.LoseSector` | cpp/devices/disk.cpp:252-295 | An instance: a sector that a WRITE has stored with GOOD is gone behind READ LONG, which sends the old contents of the file |
| `Disks.Disk.ReadLong` | cpp/devices/disk.cpp:252-295 | READ LONG sends the sector or ends with a medium error, and is rejected for a wrong length or address |
| `LinuxCaches.LinuxCache.ReadSectors` | cpp/devices/linux_cache.cpp:21-54 | Sectors beyond the end are not read; data that are read are those of the file, for the length in bytes as an int; on the medium only a failed call of the file or a negative length ends a read without data |
| `LinuxCaches.LinuxCache.WriteSectors` | cpp/devices/linux_cache.cpp:26-29 | A prefix of the data is stored at the range and nothing else, all of it after success; on the medium it fails only with a failed call of the file, and with write-through the file is flushed |
| `Controllers.Controller.Process` | cpp/controllers/controller.cpp:35-52 | Each step leads to exactly one phase, status and LUN, given by the phase before and by what the initiator and the devices do, and keeps the order of phases, the bus signals, the accounting of bytes and the answer that the trace demands; a received command makes progress unless a device takes none of its data, and then it does not; it fails exactly if a device fails |
| `Controllers.Controller.FinishCommand` | cpp/controllers/controller.cpp:35-52 | A command that is not linked reaches BUS FREE whatever the initiator does, with timeouts, resets and device errors at any point, if the devices take at least a byte of each chunk |
| `Controllers.Controller.KeepReceiving` | cpp/controllers/controller.cpp:503-530 | If a device takes nothing of its data the controller stays in DATA OUT forever |
| `Controllers.Controller.Run` | cpp/controllers/controller.cpp:35-52 | Any sequence of steps, with any signals and device results, keeps the controller consistent: no phase is out of order, and each status and message byte is the one that the trace demands |
| `Controllers.Controller.MovedIsAskedFor` | cpp/controllers/controller.cpp:503-530 | A command that gets a status without an error has moved exactly the bytes it has asked for if and only if no device has taken less than it got |
| `Controllers.Controller.LinesShowPhase` | cpp/buses/bus.cpp:302-339 | Whoever reads the bus signals sees the phase of the controller; each signal is asserted in exactly its phases |
| `Controllers.Controller.Command` | cpp/controllers/controller.cpp:100-167 | The command phase ends in the phase that the command and its device ask for, with the byte count of the device or 18 bytes of deferred sense data, and fails exactly if the command is rejected or the device gives up; the trace shows what was received and executed |
| `Controllers.Controller.Execute` | cpp/controllers/controller.cpp:169-202 | Each way in which a device ends its dispatch leads to its phase and status: the status of the device, 0x00 with data unless the device reports something, 0x02 after an error, and for REQUEST SENSE with data the status from before |
| `Controllers.Controller.EnterStatus` | cpp/controllers/controller.cpp:204-228 | The status byte is 0x10 for a successful linked command, and otherwise the status |
| `Controllers.Controller.Error` | cpp/controllers/controller.cpp:321-344 | An error leads to STATUS with 0x02, and to BUS FREE after a reset or once the status was sent |
| `Controllers.Controller.Send` | cpp/controllers/controller.cpp:346-412 | Each call makes progress towards BUS FREE and leaves the accounting of the command as it was, whether a handshake or a device fails or not, with the exact next phase |
| `Controllers.Controller.Receive` | cpp/controllers/controller.cpp:414-485 | A chunk or a message byte is received, or handed over, with the exact next phase and an exact condition for progress |
| `Controllers.Controller.TransferFromHost` | cpp/controllers/controller.cpp:503-530 | What a device leaves of a chunk stays to be received |
| `Controllers.Controller.ParseMessage` | cpp/controllers/controller.cpp:547-616 | The last IDENTIFY message selects the LUN |
| `Controllers.Controller.ProcessMessage` | cpp/controllers/controller.cpp:618-634 | MESSAGE OUT goes on exactly while ATN is asserted; then the last message selects the LUN and the command is received |
| `Controllers.CommandsAreAnswered` | cpp/controllers/controller.cpp:35-52 | In the trace of any run, a command that completes has sent one status byte and then one message byte behind all data, and the next command follows only a message that announces it |
| `Controllers.AnswersAreDue` | cpp/controllers/controller.cpp:204-228 | In the trace of any run, the status byte of a completed command is the status of its device, 0x10 instead of 0x00 if it is linked, or 0x02 if a device has failed or reported something; the message byte is 0x00, 0x0a or 0x0b for its control byte |
| `Controllers.PhasesAreInOrder` | cpp/controllers/controller.cpp:35-52 | In the trace of any run, phases follow each other as section 6.3 of SCSI-2 allows |
| `Handshake.RunKeepsInv` | cpp/buses/bus.cpp:136-276 | In any interleaving of the two parties, with timeouts at any wait, REQ, ACK, the data and the counters stay in step |
| `Handshake.ReportedBytesAreSent` | cpp/buses/bus.cpp:136-276 | The receiver reports only bytes that the sender has put on the bus, in order and each once; the sender reports at most one more |
| `Handshake.RunsDeliver` | cpp/buses/bus.cpp:136-276 | Without timeouts a transfer is complete with both signals released, or one party can continue |
| `Handshake.RunsEnd` | cpp/buses/bus.cpp:136-276 | Each run ends after a number of steps that is linear in the number of bytes |
| `Handshake.NobodyIsStuck` | cpp/buses/bus.cpp:136-276 | With timeouts each party can always go on without the other one, and a party that times out gives up, except for a target behind the last byte of a chunk |
| `Handshake.AttentionEndsMessage` | cpp/buses/bus.cpp:249-252 | An initiator that sends messages releases ATN with the last byte and not before |
| `ScsiGenerics.ScsiGeneric.Read` | cpp/devices/scsi_generic.cpp:61-134 | A successful READ through the SG driver is a sequence of commands that follow each other without gap or overlap, each but the last one for 65536 bytes, and their data, which went over the bus, are the blocks of the range; on the medium a READ whose total is not negative fails only if the driver or a handshake fails; the number of blocks is that of `ScsiGenerics.TotalBlocks`. With a negative total the driver gets one command for all blocks at once, and the READ fails even if the driver executes it |
| `ScsiGenerics.ScsiGeneric.Write` | cpp/devices/scsi_generic.cpp:61-171 | A WRITE stores whole chunks from the start of its range, all of it, received over the bus, if it succeeds; on the medium it fails only if the driver or a handshake fails; with a negative total the first handshake fails and no command is issued |
| `ScsiGenerics.ScsiGeneric.ReadWriteData` | cpp/devices/scsi_generic.cpp:173-252 | One chunk: the command that is issued has its blocks, and the CDB advances by them |
| `ScsiGenerics.TotalBlocks` | cpp/devices/scsi_generic.cpp:89-97 | All blocks are moved if and only if the total is below 2^31 bytes |
| `ScsiGenerics.MovedIsAskedFor` | cpp/devices/scsi_generic.cpp:73-97 | The blocks that are moved are those that the command asks for, if and only if it is no READ(6) or WRITE(6) with the count 0 and the total is below 2^31 bytes |
| `ScsiGenerics.FirstUnsigned` | cpp/devices/scsi_generic.cpp:173-193 | The single command for a negative total has no more blocks than the CDB asks for, and its length is the total without a sign |
| `ScsiGenerics.TwoGigabytes` | cpp/devices/scsi_generic.cpp:173-193 | An instance: a READ of 0x400000 blocks of 512 bytes becomes one command for all of them |
| `ScsiGenerics.FourGigabytes` | cpp/devices/scsi_generic.cpp:89-97 | READ(12) or READ(16) of 0x800000 blocks of 512 bytes moves nothing |
| `ScsiGenerics.TilesCover` | cpp/devices/scsi_generic.cpp:121-124 | The issued commands cover each block of the range exactly once and no other block, and all but the last one are whole chunks |
| `ScsiGenerics.LocalCdb` | cpp/devices/scsi_generic.cpp:68-85 | READ(6) and WRITE(6) become READ(10) and WRITE(10), byte by byte, and other commands stay as they are |
| `ScsiGenerics.FieldsOf` | cpp/shared/command_meta_data.cpp:42-118 | The start and the count of the commands of each length are the numbers that their own bytes are, and the commands that write are the four WRITEs |
| `ScsiGenerics.SetBlockCount` | cpp/shared/sg_util.cpp:93-119 | The count field gets the low-order bytes of a count, the start and the opcode stay |
| `ScsiGenerics.UpdateStartBlock` | cpp/shared/sg_util.cpp:73-91 | The start field advances modulo its width, the count and the opcode stay |
| `MemoryUtil.SetInt16` | cpp/shared/memory_util.cpp:21-27 | What is stored is read back, modulo the width, and nothing else changes |
| `MemoryUtil.SetInt24` | cpp/shared/sg_util.cpp:121-128 | The same for 24 bits |
| `MemoryUtil.SetInt32` | cpp/shared/memory_util.cpp:39-47 | The same for 32 bits |
| `MemoryUtil.SetInt64` | cpp/shared/memory_util.cpp:49-61 | The same for 64 bits |
| `MemoryUtil.Kept` | cpp/shared/memory_util.h:20-50 | Numbers outside a changed range keep their value |
| `MemoryUtil.FieldIsNumber` | cpp/shared/memory_util.h:20-50 | What is read is the number whose bytes are given, the highest one first |
| `MemoryUtil.BigEndianRoundTrip` | cpp/shared/memory_util.h:20-50 | The bytes of a number that fits are a field with this number, for any width |
| `Simh.MetaDataRoundTrip` | cpp/shared/simh_util.cpp:74-89 | Meta data survive being stored as four bytes |
| `Simh.BytesRoundTrip` | cpp/shared/simh_util.cpp:74-89 | Any four bytes are meta data, and are stored again as they were |
| `Simh.WordIs` | cpp/shared/simh_util.cpp:74-89 | The class is in the four highest bits of a word whose lowest byte comes first |
| `Simh.RecordsAre` | cpp/shared/simh_util.cpp:34-47 | The words that are the length of a record, by class and value |
| `Simh.EncodingIs` | cpp/devices/tape.cpp:251-289 | A record is stored with its length on both sides, padded with a zero byte if its length is odd |
| `Simh.MetaDataAtBothEnds` | cpp/shared/simh_util.cpp:12-32 | The words in front of and behind an object of an image are its meta data, so that it can be read in both directions |
| `TapeWalk.ForwardRefines` | cpp/devices/tape.cpp:654-707 | A search on the bytes of an image ends where the same search on the list of its objects ends, with its object number and the reason to stop |
| `TapeWalk.ReverseRefines` | cpp/devices/tape.cpp:654-707 | The same backwards, except that an end-of-data object leaves the head one word in front of it |
| `TapeWalk.SightsAre` | cpp/devices/tape.cpp:900-929 | The words that a search takes for blocks, filemarks, the end of the data and the end of the medium, by class and value |
| `TapeSpacing.ForwardEnds` | cpp/devices/tape.cpp:471-498 | SPACE forward over n blocks or filemarks ends behind the n-th, behind a filemark met before, or in front of the end of the data, each exactly if that comes first, with the right residual count |
| `TapeSpacing.ReverseEnds` | cpp/devices/tape.cpp:471-498 | The same backwards, down to the beginning of the tape or to an end-of-data object |
| `TapeSpacing.EndOfDataEnds` | cpp/devices/tape.cpp:488-491 | SPACE to the end of the data ends at the first end-of-data object |
| `TapeSpacing.EndOfDataInReverse` | cpp/devices/tape.cpp:727-737 | A search that meets an end-of-data object backwards ends on an object boundary exactly if another marker is in front of it |
| `TapeSpacing.ForwardThenReverse` | cpp/devices/tape.cpp:471-498 | n blocks forward and n back return to the start exactly if a block is there |
| `TapeSpacing.ReverseThenForward` | cpp/devices/tape.cpp:471-498 | n blocks back and n forward return to the start exactly if a block is in front of it |
| `TapeSpacing.SpacingReturns` | cpp/devices/tape.cpp:654-707 | The first of these for the byte position and the object number on any image |
| `TapeSpacing.SpacingBackReturns` | cpp/devices/tape.cpp:654-707 | The second of these for the byte position and the object number on any image |
| `TapeSpacing.LocateRefines` | cpp/devices/tape.cpp:808-828 | The search of LOCATE ends behind the n-th object it counts and nowhere else |
| `TapeSpacing.LocateReturns` | cpp/devices/tape.cpp:540-579 | LOCATE to the object number of a position returns to it if and only if the object in front of it is counted and neither an unknown record class nor an end of the data or medium comes before |
| `TapeSpacing.LocateWraps` | cpp/devices/tape.cpp:808-828 | LOCATE to numbers of 64 bits counts their low 32 bits, where 0 stands for 2^32, except for the number 0 itself |
| `TapeSpacing.ForeignRecordsShift` | cpp/devices/tape.cpp:931-950 | The object number and the count of LOCATE agree exactly if no record of an unknown class comes before |
| `TapeBoundaries.SearchForwardIsEven` | cpp/devices/tape.cpp:654-707 | On any image a search from an even position ends at an even position |
| `TapeBoundaries.SearchReverseIsEven` | cpp/devices/tape.cpp:654-707 | The same backwards |
| `TapeBoundaries.FindObjectIsEven` | cpp/devices/tape.cpp:808-828 | So does the search of LOCATE |
| `TapeBoundaries.LocateIsEven` | cpp/devices/tape.cpp:540-579 | And LOCATE, for any number |
| `TapeBoundaries.SpaceKeeps` | cpp/devices/tape.cpp:471-498 | SPACE keeps a drive on an object boundary with the right object number |
| `TapeBoundaries.EndKeeps` | cpp/devices/tape.cpp:488-491 | SPACE to the end of the data does so, too |
| `TapeBoundaries.LocatedKeeps` | cpp/devices/tape.cpp:540-579 | The search of LOCATE finds exactly the objects up to the end-of-data object, and ends in front of the object |
| `TapeBoundaries.MissingEndsBehind` | cpp/devices/tape.cpp:808-828 | For any other number it ends behind the end-of-data object |
| `TapeBoundaries.BackFromBehind` | cpp/devices/tape.cpp:727-737 | From there a search backwards meets the end-of-data object at once and ends one word in front of it |
| `TapeBoundaries.BodiesAre` | cpp/shared/simh_util.cpp:34-47 | The objects of a tape without gaps are exactly the records of the classes 0 and 8 and two markers |
| `TapeBoundaries.KindsOf` | cpp/devices/tape.cpp:900-929 | Records and unreadable records are blocks, the marker of class and value 0 is a filemark, and the end of the data are the bytes 50 32 53 73 |
| `TapeBoundaries.PositionIsLocated` | cpp/devices/tape.cpp:581-606 | The object number on a boundary is the index of the object, and LOCATE to it returns to the same position |
| `TapeBoundaries.ReadKeeps` | cpp/devices/tape.cpp:186-249 | A READ of a record, or one that meets a filemark or the end of the data, keeps the drive on a boundary |
| `TapeBoundaries.ReadBlocksKeeps` | cpp/devices/tape.cpp:186-249 | The same for a READ of several blocks |
| `TapeBoundaries.WriteKeeps` | cpp/devices/tape.cpp:251-289 | A WRITE keeps the drive on a boundary of the tape it has changed |
| `TapeSessions.Execute` | cpp/devices/tape.cpp:471-498 | One command on the drive: if it completes, by a condition on the tape that can be checked before, it keeps the drive on a boundary with the right object number; the result tells exactly whether it completes |
| `TapeSessions.ExecuteSpace` | cpp/devices/tape.cpp:471-498 | SPACE in terms of the command and of the objects on the tape: it completes behind or in front of the n-th block (code 0) or filemark (code 1), exactly if no other end comes first; otherwise the place and the information, filemark and EOM of the sense data for filemarks, the end of the data and the beginning of the tape; code 3 ends in front of the end-of-data object |
| `TapeSessions.ExecuteLocate` | cpp/devices/tape.cpp:540-579 | LOCATE ends in front of the object with the number, exactly if there is one |
| `TapeSessions.ExecuteRead` | cpp/devices/tape.cpp:119-150 | READ in terms of the command and of the object ahead: the data of a record, as far as they were asked for, with the difference of the lengths in the sense data, a filemark with the byte count or 0, the end of the data, or an error for everything else |
| `TapeSessions.Run` | cpp/devices/tape.cpp:581-606 | After any sequence of REWIND, SPACE, LOCATE, READ and WRITE commands that complete the object number is the number of objects in front of the head |
| `TapeSessions.ReturnTo` | cpp/devices/tape.cpp:540-606 | After any such sequence without a WRITE, LOCATE to the number in the reply of READ POSITION from before returns to the same byte position |
| `TapeSessions.LocateMissing` | cpp/devices/tape.cpp:78-87 | LOCATE to an object that is not there answers with GOOD, and the SPACE backwards that follows fails and leaves the drive on an object boundary if and only if the last object is a filemark or another marker |
| `TapeSessions.WriteThenRead` | cpp/devices/tape.cpp:119-184 | Any sequence of WRITEs in both modes, a REWIND and the matching READs on the drive return all data, if and only if the WRITEs have room; what was behind them on the file is still there |
| `TapeSessions.WriteRequests` | cpp/devices/tape.cpp:152-184 | A sequence of WRITEs succeeds if and only if there is room for all of it |
| `TapeSessions.ReadRequests` | cpp/devices/tape.cpp:119-150 | A sequence of READs returns what the list of objects holds |
| `TapeRuns.WrittenIsRead` | cpp/devices/tape.cpp:119-289 | The round trip on values, for all files and requests: all data return, or the tape overflows |
| `TapeRuns.WriteAllHolds` | cpp/devices/tape.cpp:251-289 | After a sequence of WRITEs the image holds exactly their records and one end-of-data object, or there was no room |
| `TapeRuns.EvenRecordIsRead` | cpp/devices/tape.cpp:186-249 | A record of even length on any image is read with its data |
| `TapeRuns.OddRecordIsNotRead` | cpp/devices/tape.cpp:186-249 | A record of odd length below 2^24 is never readable |
| `TapeRuns.WriteKeepsNumbers` | cpp/devices/tape.cpp:251-289 | The object number after a WRITE is the number of objects in front of the head |
| `TapeRuns.FilemarksAreNotCounted` | cpp/devices/tape.cpp:500-538 | After WRITE FILEMARKS the object number is right if and only if the count is 0 |
| `Tapes.Tape.FindNextObject` | cpp/devices/tape.cpp:654-707 | The loop of the drive is the search on the image, with the sense data of each way to end it |
| `Tapes.Tape.ReadSimhMetaData` | cpp/devices/tape.cpp:900-942 | The loop of the drive skips gaps and unknown words as the search on the image does, and counts objects in the same way |
| `Tapes.Tape.ReadNextMetaData` | cpp/devices/tape.cpp:776-806 | One word in either direction, with the position behind it |
| `Tapes.Tape.FindObject` | cpp/devices/tape.cpp:808-828 | The loop of LOCATE is the search on the image that `TapeSpacing.LocateRefines` describes, and the drive ends at its head |
| `Tapes.Tape.Space6` | cpp/devices/tape.cpp:471-498 | SPACE is the search for each object type, with the end-of-data word given back for the end of the data; other types are rejected without moving; what this means for the objects on a tape is stated by `TapeSessions.ExecuteSpace` |
| `Tapes.Tape.Locate` | cpp/devices/tape.cpp:540-579 | LOCATE is that search from the beginning of the tape, for any 64-bit number |
| `Tapes.Tape.LocateCommand` | cpp/devices/tape.cpp:78-87 | LOCATE answers with GOOD whether its search has found the object or not |
| `Tapes.Tape.ReadPosition` | cpp/devices/tape.cpp:581-606 | The reply, as an initiator decodes it: BOP and EOP exactly at the two ends, twice the number or the byte position modulo 2^32, and zeros |
| `Tapes.Tape.Write` | cpp/devices/tape.cpp:152-184 | A WRITE puts its records and an end-of-data object at the position and changes nothing else, if and only if there is room |
| `Tapes.Tape.WriteData` | cpp/devices/tape.cpp:251-289 | One chunk of a WRITE continues the stream of records |
| `Tapes.Tape.WriteMetaData` | cpp/devices/tape.cpp:631-652 | A length word or a filemark, and the end-of-data object behind it where it fits |
| `Tapes.Tape.WriteFilemarks` | cpp/devices/tape.cpp:500-538 | WRITE FILEMARKS puts its filemarks and an end-of-data object, if and only if there is room, and the object number stays |
| `Tapes.Tape.Read` | cpp/devices/tape.cpp:119-150 | READ in both modes returns the data that are ahead, with the sense data of filemarks, ends and lengths that differ |
| `Tapes.Tape.ReadData` | cpp/devices/tape.cpp:186-249 | One chunk of a READ: the first one finds the record and adjusts the transfer to its length, the last one accepts the record only with the trailing length word of its leading one |
| `Tapes.Tape.CheckBlockLength` | cpp/devices/tape.cpp:966-996 | In variable-length mode a length that differs is reported with its difference, with SILI only if the record is shorter; in fixed mode exactly the lengths are reported that do not divide the byte count |
| `S2pDumps.Executor.ReadNext` | cpp/s2pdump/s2pdump_executor.cpp:155-219 | A block, a filemark, an unreadable block or the end of the data is recognized from the sense data, and the head is behind it, after at most two READs of a reliable drive and three otherwise; a readable block is given up exactly after two failed READs |
| `S2pDumps.DumpTape` | cpp/s2pdump/s2pdump_core.cpp:678-720 | The dump is that of all objects of the tape in order, with a bad data record for each block that could not be read; with fewer than two failed READs nothing is missing |
| `S2pDumps.RestoreTape` | cpp/s2pdump/s2pdump_core.cpp:722-777 | The loop writes the blocks and filemarks that the words of a complete file describe, up to the end of the medium |
| `S2pDumps.RestoreReturnsDump` | cpp/s2pdump/s2pdump_core.cpp:722-777 | Restoring the dump of any objects writes the same blocks and filemarks, without the unreadable blocks |
| `S2pDumps.RestoresImage` | cpp/s2pdump/s2pdump_core.cpp:722-777 | Any SIMH image of records of even length of the classes 0 and 8 and of markers is restored with all its blocks and filemarks |
| `S2pDumps.DumpIsImage` | cpp/shared/simh_util.cpp:63-72 | A dump is a SIMH image of the tape if and only if no block has an odd length |
| `Crc.Crc32` | cpp/devices/tap_driver.cpp:342-353 | The bit loop of the program computes the complement of the remainder of the division |
| `Crc.FirstBitsAreComplemented` | cpp/devices/tap_driver.cpp:342-353 | The definition of section 3.2.9 of IEEE 802.3: the checksum is the complement of the remainder of the frame with its first 32 bits complemented |
| `Crc.CheckValue` | cpp/devices/tap_driver.cpp:342-353 | An instance: the check value 0xCBF43926 of the characters 1 to 9 |
| `Crc.ResidueAcceptsOnlyTheChecksum` | cpp/devices/tap_driver.cpp:368-378 | A receiver that checks for the residue accepts a frame with four more bytes if and only if these are its check sequence |
| `Crc.BurstDetected` | cpp/devices/tap_driver.cpp:342-353 | Frames of equal length that differ within any four bytes have different checksums |
| `Crc.RegisterInjective` | cpp/devices/tap_driver.cpp:342-353 | Different states of the register stay different over any data |
| `Crc.AppendCheckSequence` | cpp/devices/tap_driver.cpp:355-381 | A received frame gets its check sequence in little-endian order, which is the one that `Crc.ResidueAcceptsOnlyTheChecksum` accepts, and the rest of the buffer stays |

## Left out

Weaker than the program or its promises:

- ImageFiles.ImageFile.Write: a write that reports success has reached the file; errors that a stream meets when it is
  closed, which the program does not see in `DiskTrack::Save`, are not modelled.
- Disks.Disk.Read: totals of 2^31 bytes and more are not modelled for sector sizes other than 256 to 4096; ranges that
  wrap around 64 bits are accepted (`Disks.WrappingRange`) but what is transferred for them is not modelled. The
  handshake of the bytes that are sent is part of the controller. A stream that is asked for a negative number of bytes
  reads nothing and fails.
- Disks.Disk.Write: the same for totals and for ranges that wrap around 64 bits.
- Disks.Disk.ReadLong: WRITE LONG is not modelled.
- DiskCaches.DiskCache.CachedAreMostRecent: states nothing after a failed transfer or 2^32 accesses; the serial numbers
  do not follow the accesses then.
- TapeSessions.ExecuteRead: the sense key, and in fixed mode anything but a filemark or the end of the data as the
  first object; the blocks of a READ in fixed mode are those of `Tapes.Tape.Read`.
- TapeSessions.ExecuteSpace: the sense key.
- Tapes.Tape.Read: nothing is stated about a READ of several blocks that meets a record of another length, except that
  it ends; READ(16) and WRITE(16) are LOCATE followed by the modelled commands.
- Tapes.Tape.WriteFilemarks: the filemarks that were written before one fails are not described.
- Tapes.Tape.Write: what a WRITE without room leaves on the tape is not described.
- TapeSessions.Run: tapes have one end-of-data object behind everything else and no erase gaps; WRITE FILEMARKS is not
  one of the commands, because it does not keep the object number.
- TapeSessions.WriteThenRead: records have an even length, others cannot be read (`TapeRuns.OddRecordIsNotRead`).
- ScsiGenerics.ScsiGeneric.Read: ranges end within the addresses of the command, and the driver transfers everything or
  fails; residual counts, FORMAT UNIT, commands that do not count blocks, blocks of a single byte, and a block size that
  changes between chunks are not modelled. For a length of 2 GiB and more it is assumed that the driver rejects it, as
  the one of Linux does, or that the buffer holds the data.
- ScsiGenerics.ScsiGeneric.Write: the same.
- ScsiGenerics.ScsiGeneric.ReadWriteData: the same.
- Controllers.Controller.ParseMessage: only IDENTIFY messages; ABORT, BUS DEVICE RESET and extended messages are not
  modelled.
- Controllers.Controller.ProcessMessage: the same.
- Controllers.Controller.Process: data bytes are counted, not named; that they are the right ones is stated for disks
  and tapes. IDENTIFY is the only message of the initiator. Reservations, LUNs without a device, script generation and
  the remaining special case of MODE SELECT are outcomes of the dispatch of a command here. A device may set the status
  to CHECK CONDITION while it sends data, but not while it receives them, and the size of a transfer does not change
  behind its first chunk.
- Controllers.Controller.Error: the status is always CHECK CONDITION; the call with GOOD, for REQUEST SENSE to a LUN
  without a device, is not modelled.
- Handshake.ReportedBytesAreSent: the parties do not see changes of the phase lines during a handshake; a reset has the
  effect of a timeout.
- Tapes.Tape.ReadData: in fixed mode only records of the block size are described.
- S2pDumps.Executor.ReadNext: REQUEST SENSE always succeeds, and the end of the medium is reported as the end of the
  data.
- S2pDumps.DumpTape: errors of the dump file and of REQUEST SENSE itself are not modelled.
- S2pDumps.RestoreTape: a file that ends inside of a record is not described.

Not modelled:

- the .tar mode, the append mode, ERASE and FORMAT MEDIUM, and images of less than 12 bytes
- errors of tape image files other than reading behind their end
- statistics, logging, timing, and the command handshake with its byte counts
- mode pages, INQUIRY data, the property store, remote commands, host services, printers and the DaynaPort commands
- disks of 2^31 sectors and more with the track cache
