# A verified model of the Ether Dream firmware

The Ether Dream is a laser projector DAC. Its firmware plays points that a host
streams over TCP, or that it reads itself from ILDA files on a FAT card, and a
small bootloader updates it over USB or from the card. This project models the
stateful core of that system in Dafny and proves what the pieces promise each
other.

| file | models |
|---|---|
| `Words.dfy` | 32-bit wrap-around, little-endian words, `&` and `^` on natural numbers |
| `Crc32.dfy`, `CrcResidue.dfy` | the table-driven CRC of the bootloader; its residue |
| `FatVolume.dfy` | a FAT12/16/32 volume as a mathematical object: links, chains, the bytes of a file |
| `FatFs.dfy` | the sector window, `get_fat`, `f_read`, `f_lseek` |
| `FatDirectory.dfy` | stepping and seeking in a directory table |
| `FatLayout.dfy` | a volume as it is written: packed tables, files along their chains, entries as slices |
| `BootRecord.dfy` | the boot-record checks of a mount |
| `IldaPacing.dfy`, `IldaFormat.dfy`, `IldaPlayer.dfy`, `IldaEncoding.dfy` | playing ILDA frames: pacing, decoding, repetition; the records as they are written |
| `Flash.dfy`, `FirmwareImage.dfy`, `Bootloader.dfy` | flash commands, the image packer, the update loop |
| `DfuHandshake.dfy` | the USB interrupt against the bootloader's main loop |
| `Dac.dfy`, `DacRing.dfy` | the DAC, shutter and emergency-stop machine; the point ring under preemption |
| `PointStream.dfy`, `StreamCommands.dfy` | the device's side of the point-stream protocol; what each command does |
| `FlowControl.dfy`, `PointFlow.dfy`, `AckQueue.dfy`, `FrameQueue.dfy`, `FrameRepeats.dfy` | the host library: flow control, points from end to end, acknowledgements, frame hand-over and repeats |
| `Skub.dfy`, `SkubRace.dfy` | the bitmap allocator, alone and under interleaving |

Code that changes state step by step is a class whose methods are proved against
functions on plain values (`Volume`, `Dev`, `Session`, `Play`, `Progress`); the
properties are then lemmas about those values and about whole runs of them.
Concurrency is a state machine over steps that nothing can split. A flag word is
the set of its one bits. `x & m` with an arbitrary mask is `Words.And`.

Where the code does something other than it seems to intend, it is kept as it is,
and the exact condition is part of the result:

* a refused rate command consumes one byte, so a stream is read the same however it
  is cut into packets if and only if it meets no such command (`PointStream.SplitsAgree`);
* `skub_init_pool` leaves the last word of a pool empty exactly when the pool size is
  a multiple of 32 (`Skub.InitialPool`);
* a sized allocation fails although a long enough chunk is free if and only if such a
  chunk was freed after the call had passed its word (`SkubRace.FailureWrongExactly`);
* the boot-record checks go wrong in exactly three cases of 32-bit wrap-around
  (`BootRecord.MountExact`);
* stepping through a directory stops after entry 0, where a direct seek goes on,
  exactly when the table starts at a cluster outside the volume
  (`FatDirectory.Directory.Walk`);
* after a failed read the sector window can hold wrong bytes under the old label, and
  hands them out when that sector is asked for next (`FatFs.FileSystem.MoveWindow`);
* a read error ends a card update with the result of success (`Bootloader.Loader.AttemptFileBootload`);
* a sector whose erasing failed counts as erased for the blocks that follow
  (`Bootloader.Loader.SelectSector`), and erasing a range whose end wraps 32 bits
  reports success after its first sector (`Flash.Erase`);
* a firmware block that comes while one is outstanding is lost or loses the other
  (`DfuHandshake.OverrunExact`); it can be reported as done exactly when the main loop is
  not about to record a failure, and falsely (`DfuHandshake.LateReportExact`,
  `DfuHandshake.LateReportFalse`);
* the host keeps 64 slots for acknowledgements it waits for: its accounts hold over a run
  if and only if no data command is sent while 63 are outstanding, and never recover
  after that (`FlowControl.FlowExact`, `FlowControl.CrowdedLoses`). A fresh connection can
  reach that point (`FlowControl.CrowdedReached`);
* the host chooses a negative number of points exactly when the device holds more
  than its target without playing, and then repeats points (`FlowControl.DecideNegative`,
  `FrameQueue.TurnExact`), or reads in front of its frame exactly when fewer points of
  it were sent than the device holds above the target (`FrameQueue.HostStrays`);
* the status bits of a palette record count as part of its colour number, so the last
  point of a frame, if it is lit, has the last colour (`IldaEncoding.IndexExact`);
* frames longer than their slot keep the pacing error within half a slot exactly when
  each one's excess fits what the error has left of it (`IldaPacing.SmallExact`);
* `etherdream_disconnect` is taken back by the next `etherdream_write` and by a loop
  that finishes its last pass over the only frame, and by nothing else
  (`FrameQueue.ShutdownLost`).

## Model

| member | source | states |
|---|---|---|
| Crc32.SerialIsShift | boot/crc32.c:16-22 | feeding k bits one at a time to the shift register is adding them all at once and shifting k times |
| Crc32.TableStep | boot/crc32.c:32-34 | one step of the byte loop is exactly eight steps of the bit-serial register |
| Crc32.CrcTable.MakeTable | boot/crc32.c:9-23 | entry n of the table is n shifted eight times through the polynomial |
| Crc32.CrcTable.Crc32 | boot/crc32.c:25-37 | whatever has been computed before, the result is the bit-by-bit CRC of the bytes |
| Crc32.CrcConcat | boot/crc32.c:25-37 | a CRC can be continued: crc(crc(c, a), b) is crc(c, a + b) |
| Crc32.CrcDetectsByte | boot/crc32.c:25-37 | changing any single byte of a message changes its CRC |
| CrcResidue.CrcResidue | boot/crc32.c:9-37 | every message followed by its own CRC, low byte first, has the CRC 0x2144DF1C |
| FatVolume.RangeConcat | common/lib/ff.c:2134-2217 | reading a range of a file in two parts succeeds exactly when reading it whole does, and gives the same bytes |
| FatVolume.ClusterFits | common/lib/ff.c:589-597 | every sector of a valid cluster has a sector number that fits 32 bits |
| FatFs.FileSystem.MoveWindow | common/lib/ff.c:509-541 | succeeds exactly when the sector is the labelled one or can be read; the label then names it, and is kept on failure; a window that was sound then holds that sector, and a wrong one is handed out exactly when a damaged window is asked for the sector on its label |
| FatFs.FileSystem.Clust2Sect | common/lib/ff.c:589-597 | 0 exactly for cluster numbers outside the volume, the wrap-around of clusters 0 and 1 included |
| FatFs.FileSystem.GetFat | common/lib/ff.c:607-640 | the link of the cluster in the table on disk, a FAT12 entry over two sectors included; 1 for a cluster outside the volume, 0xFFFFFFFF for an unreadable table |
| FatFs.FileSystem.GetFat12 | common/lib/ff.c:620-626 | the 12 bits at one and a half times the cluster number, whichever sectors they lie in |
| FatLayout.LinkStored | common/lib/ff.c:607-640 | in a table that holds a list of links, two of 12 bits to three bytes or each of 16 or 32 bits low byte first, every link reads back as written, of 32 bits the low 28 |
| FatLayout.FileStored | common/lib/ff.c:2134-2217 | a file laid out along any chain of any such table reads back as its content, from the first byte to the last |
| FatFs.CursorDetermined | firmware/file/ild-player.c:546-549 | two sound file states at one position agree in cluster and sector, so putting back a saved state is seeking there |
| FatFs.File.Read | common/lib/ff.c:2134-2217 | delivers the file's bytes from the position up to what is left of the file; succeeds exactly when all of them can be read; touches no other byte of the buffer; even a failed read has delivered a right prefix and counted it |
| FatFs.File.Transfer | common/lib/ff.c:2158-2214 | the loop over partial and whole sectors delivers exactly the requested bytes of the cluster chain |
| FatFs.File.ReadPiece | common/lib/ff.c:2160-2210 | each turn makes progress along the chain and fails only when part of what is left cannot be read |
| FatFs.File.ReadRun | common/lib/ff.c:2172-2188 | whole sectors read at once are consecutive bytes of the file, and never run past the cluster |
| FatFs.File.EnterSector | common/lib/ff.c:2160-2171 | on a sector boundary finds the sector of the next byte, and succeeds exactly when the chain reaches it |
| FatFs.File.Seek | common/lib/ff.c:2629-2697 | from any file state: the position becomes the offset or the file size, with the cluster and sector a walk from the start would find; fails exactly when the chain does not reach it |
| FatFs.File.SeekStart | common/lib/ff.c:2642-2658 | starting from the current cluster is starting from the same link of the same chain |
| FatFs.File.FollowChain | common/lib/ff.c:2660-2675 | ends at the cluster of the target, or fails because the chain is too short |
| FatDirectory.Directory.SetIndex | common/lib/ff.c:826-863 | for the fixed root table, the FAT32 root and chained directories: the index, cluster, sector and offset of entry idx, exactly when that entry exists |
| FatDirectory.Directory.Next | common/lib/ff.c:874-931 | from the place of entry i to the place of entry i + 1 when that exists, unless the index is 65535 or the current sector counts as 0; the error tells the end of the table, a bad link and a disk error apart |
| FatDirectory.Directory.Walk | common/lib/ff.c:826-931 | entry 0 and then k steps end at the place of entry k exactly when a direct seek to k succeeds and k is 0 or the table does not start at a cluster outside the volume |
| FatDirectory.SectorKnown | common/lib/ff.c:883-885 | the sector of an entry counts as 0 only in a table that starts outside the volume |
| FatDirectory.RootOutside | common/lib/ff.c:883-885 | a volume mounted from an accepted record whose root can be sought to entry 1 and not stepped there |
| FatDirectory.NextPlace | common/lib/ff.c:883-928 | how the place of an entry relates to that of the next, in the four cases the code tells apart |
| FatLayout.EntryIsSlice | common/lib/ff.c:826-863 | entry idx of a directory in clusters is bytes 32 idx to 32 idx + 31 of the directory read as a file |
| FatLayout.RootEntryIsSlice | common/lib/ff.c:826-863 | and of the fixed root table, the same bytes of its sectors one after another |
| BootRecord.Mount | common/lib/ff.c:1844-1891 | gives the volume the record describes, or none if it describes none, if and only if no wrap-around happens |
| BootRecord.FieldsWritten | common/lib/ff.c:197-222 | a parameter block written into a boot sector reads back; of each size the 16-bit form counts unless it is 0 |
| BootRecord.TypeExact | common/lib/ff.c:1872-1874 | a volume gets the smallest entries in which all its cluster numbers stay below the bad-cluster mark |
| BootRecord.MountExact | common/lib/ff.c:1844-1891 | for every record: accepted and mounted as described if and only if the system area does not wrap to a plausible size, the table size does not wrap below the table, and the data area keeps its address |
| BootRecord.MountSound | common/lib/ff.c:1876-1891 | reserved sectors, FAT copies, root directory and as many whole clusters as there is room for follow one another inside the partition, the table has an entry for every cluster, a FAT32 root starts where the record says, and all is sound exactly when the last cluster still has 32-bit sector numbers |
| BootRecord.PartitionInside | common/lib/ff.c:1844-1891 | in a partition inside the 32-bit sector space a described volume is mounted as described and sound |
| BootRecord.ClusterSafe | common/lib/ff.c:589-640 | for every cluster, each sector `get_fat` reads lies in the first FAT copy and each data sector inside the partition behind the system area |
| BootRecord.ClustersDisjoint | common/lib/ff.c:589-597 | two clusters never share a sector |
| BootRecord.WrapAccepted | common/lib/ff.c:1853-1869 | a record whose table size times copies wraps to zero is accepted with its table over its data |
| BootRecord.TableWrapAccepted | common/lib/ff.c:1880-1891 | a record whose table would need 2^32 bytes is accepted without a table |
| BootRecord.AddressWrapAccepted | common/lib/ff.c:1878-1879 | a sound record at the end of the sector space is mounted with its data in front of its table |
| IldaPacing.NoDrift | firmware/file/ild-player.c:258-274 | points scheduled after k frames are k nominal frames plus the carried error |
| IldaPacing.StepBounded | firmware/file/ild-player.c:258-274 | a frame that fits its slot is never clamped and leaves an error of at most half its length |
| IldaPacing.StepExact | firmware/file/ild-player.c:258-274 | a frame leaves the error within half a slot if and only if it fits its slot or its excess fits what the error has left of half a slot |
| IldaPacing.SmallExact | firmware/file/ild-player.c:258-274 | over any frames the error stays within half a slot if and only if each of them does so when its turn comes |
| IldaPacing.ErrorBounded | firmware/file/ild-player.c:258-274 | the error stays within half a frame slot however many frames play |
| IldaPacing.ScheduleBounded | firmware/file/ild-player.c:258-274 | the schedule never leaves the nominal rate by more than half a slot |
| IldaPacing.LongFramesDrift | firmware/file/ild-player.c:267-271 | frames longer than the slot make the error grow without bound: the size condition is needed |
| IldaPacing.NoLimit | firmware/file/ild-player.c:261-274 | before a frame rate is set every frame is played once and the error stays what it was |
| IldaFormat.CacheLossless | firmware/file/ild-player.c:404-413 | a decoded point survives the small-frame cache unchanged |
| IldaEncoding.PointRead | firmware/file/ild-player.c:282-324 | for every point, format and palette: reading the record of a point gives its place and its colours, shifted by 8, with the intensity of the brightest; nothing is lit when it is blanked; a colour number past the palette stands for the last entry |
| IldaEncoding.IndexExact | firmware/file/ild-player.c:286-300 | a palette record has the colour of its index exactly when no other status bit is set, or its index is the last |
| IldaEncoding.FrameRead | firmware/file/ild-player.c:445-503 | every point of a frame that was written into a file is read as what was written |
| IldaEncoding.HeaderRead | firmware/file/ild-player.c:245-280 | the header in front of a frame gives its format and number of points; one of no points ends the file |
| IldaEncoding.PlayStored | firmware/file/ild-player.c:417-424 | a player in front of a frame that was written delivers its points |
| IldaFormat.RequestConserves | firmware/file/ild-player.c:426-559 | no request drops, adds or reorders points of the frame's repetitions |
| IldaFormat.FramePlayed | firmware/file/ild-player.c:426-559 | whatever the request sizes, a finished frame was delivered exactly its repeat count of times; enough requests of at least one point finish it |
| IldaPlayer.Player.ReadHeader | firmware/file/ild-player.c:344-392 | tells a frame, the end of the file, a WAV file and a bad or unreadable header apart exactly; a frame's points are then those of the file behind the header |
| IldaPlayer.Player.ReadFrameHeader | firmware/file/ild-player.c:245-280 | the repeat count and the carried error are the pacing step for the header's point count |
| IldaPlayer.Player.ReadPoints | firmware/file/ild-player.c:417-424 | between frames the next header decides: its frame is begun and served, paced by the error carried over; 0 at the end of the file, negative when something cannot be read |
| IldaPlayer.Player.ReadCheck | firmware/file/ild-player.c:130-151 | succeeds exactly when all the bytes are there to be read |
| IldaPlayer.Player.DoReadPoints | firmware/file/ild-player.c:426-559 | delivers the next points of the frame's repetitions, from cache or file alike; fails only while reading a file that cannot supply them |
| IldaPlayer.Player.ReadFromFile | firmware/file/ild-player.c:445-503 | the decoded points of the file, which the cache then holds too if the frame is small |
| IldaPlayer.Player.ReplaySmall | firmware/file/ild-player.c:515-528 | the cached points are the frame's own |
| IldaPlayer.Player.Advance | firmware/file/ild-player.c:534-556 | further into the frame, to its next repetition by cache or by restored position, or to the end |
| IldaPlayer.HeaderParts | firmware/file/ild-player.c:245-258 | reading the header in four pieces is reading it whole |
| Flash.SectorTable | boot/usboot_iap.c:17-48 | the table covers the flash without gap or overlap |
| Flash.FindSector | boot/usboot_iap.c:54-70 | the sector of the address with its bounds, or -1 outside flash |
| Flash.Erase | boot/usboot_iap.c:76-139 | on any outcome a run of sectors from the first has been erased once each and nothing else; with working flash it succeeds exactly when the range is empty, lies in flash, or starts in flash and wraps 32 bits; success means exactly the sectors that meet the range, or, when it wraps, only the first; len never drops below zero and the loop ends |
| Flash.Write | boot/usboot_iap.c:149-208 | on any outcome a prefix of the data is programmed, each page once, and none outside flash; with working flash and an aligned start it succeeds exactly when all of it lies in flash |
| Flash.ChunkFits | boot/usboot_iap.c:182-191 | the piece chosen never crosses a sector |
| FirmwareImage.Build | tools/image.py:40-67 | header, length vector, padding, CRC and filler are where the bootloader looks for them |
| Bootloader.Loader.HandleDataBlock | boot/main.c:523-571 | fed in order from reset, each block is taken, erasing a sector exactly when its first page begins, and past the end of flash nothing is written; any block, in order or not, erases at most its own sector and programs at most its own page; after each kind of flash failure memory is exactly what had been done before it; the bootloader is never touched |
| Bootloader.Loader.SelectSector | boot/main.c:538-551 | a sector is erased once, before its first page, and never again while its pages follow; a failed erase changes nothing and is remembered as done all the same |
| Bootloader.Loader.StoreBlock | boot/main.c:553-570 | four blocks make a page, which is programmed once and whole |
| Bootloader.Loader.UpdateComplete | boot/main.c:267-284 | the update as a whole: flash holds program and CRC, each touched sector erased once, each page programmed once, no other; the application check then succeeds exactly from 1024 bytes on |
| Bootloader.LoadedImageStarts | boot/main.c:267-284 | whatever was in flash before, a loaded image passes the check exactly when its padded length is at least 1024 |
| Bootloader.DamageRefused | boot/main.c:267-284 | from a flash that the check accepts, changing any one byte of the program other than its length, or of its CRC, makes one it refuses |
| Bootloader.Loader.UpdateGuarded | boot/main.c:267-284 | and so after every update: no such change goes unnoticed |
| Bootloader.ImageLoadable | tools/image.py:40-67 | every packed image carries the marks the card loader asks for |
| Bootloader.ImageSkipped | boot/main.c:354-364 | a packed image is skipped exactly when the application present passed its check with the CRC of the image's program |
| Bootloader.Loader.AppOk | boot/main.c:267-284 | true exactly when the length word is in range and the CRC behind the program matches, the word read past the end of flash included; the CRC is then kept for the card update |
| Bootloader.Loader.AttemptFileBootload | boot/main.c:342-373 | result 0 exactly when the file ends at once, or begins with the name and the magic number, is not the application already present and fits, and in either case has no part of a block at its end; it is then loaded as far as it can be read; a read error counts as the end; a file refused for its first block leaves flash as it was; the bootloader is never touched |
| Bootloader.Loader.LoadBlock | boot/main.c:343-370 | one turn of the card loop: the next block of the file, the end, or a refusal |
| Bootloader.FedFits | boot/main.c:535-551 | running out of flash and not fitting are the same thing |
| DfuHandshake.Handshake | boot/main.c:161-247 | for every interleaving with a host that waits for dfuDNLOAD_IDLE: blocks are handled once, in order and unmodified, and dfuDNLOAD_IDLE is reported only when all sent so far succeeded |
| DfuHandshake.StepKeeps | boot/main.c:500-513 | what every request and every step of the main loop keeps while the host waits for dfuDNLOAD_IDLE |
| DfuHandshake.RuledFailure | boot/main.c:508-512 | for a host that waits for dfuDNLOAD_IDLE a failed block ends the download |
| DfuHandshake.RecoversExactly | boot/main.c:161-247 | whatever else the host does, after a failed block dfuDNLOAD_IDLE comes back only if it sends another block, and with any block at all it can |
| DfuHandshake.FailureStays | boot/main.c:161-247 | without another block nothing more is handled or reported done |
| DfuHandshake.LeavesError | boot/main.c:168-233 | dfuERROR is left by DFU_ABORT and by a DFU_DNLOAD of the right length or of none, and by nothing else, DFU_CLRSTATUS included, unlike Appendix A.2 of the USB Device Firmware Upgrade Specification 1.1 |
| DfuHandshake.ErrorStays | boot/main.c:168-233 | over any run without those requests the device stays in dfuERROR |
| DfuHandshake.OverrunExact | boot/main.c:185-188 | a new block and all before it are each handled once, in order, if and only if no request was outstanding when it came |
| DfuHandshake.LateReportExact | boot/main.c:500-513 | a block sent while a request is outstanding can be reported as done without another being sent if and only if the main loop is not about to record a failure of the one before |
| DfuHandshake.LateReportFalse | boot/main.c:500-513 | every such report is false: fewer blocks were handled than were sent |
| Dac.RoomExact | firmware/lib/dac.c:187-214 | the grant is one run of free slots inside the buffer, empty exactly when 1799 points are held |
| Dac.FillAppends | firmware/lib/dac.c:187-233 | points written where the request said and then announced are appended to those still to be played |
| Dac.IrqTakesOldest | firmware/lib/dac.c:625-644 | one interrupt plays the oldest point; with none left it stops the DAC with the underflow flag |
| Dac.RateQueueAppends | firmware/lib/dac.c:153-178 | a rate change waits behind those queued before it, or is refused when idle or when 199 wait |
| Dac.PopRateTakesOldest | firmware/lib/dac.c:500-509 | the oldest waiting rate takes effect |
| Dac.AlwaysSafe | firmware/lib/lightengine.c:35-47 | over every run: emergency stop exactly while a cause is recorded, and then DAC idle, shutter closed and the flag set; shutter open only while playing; playing, timer and interrupt action agree |
| Dac.StepSound | firmware/lib/playback.c:30-47 | what prepare, start, stop, rates, shutter, stop causes, source switches, writes and interrupts each keep |
| Dac.NeverPanics | firmware/lib/dac.c:539-546 | the point timer never finds the panic action, and nothing starts while a stop cause is recorded |
| Dac.EmptyCause | firmware/lib/lightengine.c:35-41 | a stop without a cause breaks the equivalence exactly when no cause was recorded before |
| Dac.Control.Prepare | firmware/lib/dac.c:446-462 | empties both rings and clears the stop flags when idle and ready, else changes nothing |
| Dac.Control.Start | firmware/lib/dac.c:125-147 | from prepared with a rate: plays the current source with timer and shutter, else changes nothing |
| Dac.Control.Stop | firmware/lib/dac.c:471-498 | timer off, shutter closed, idle, the reason added to the flags |
| Dac.Control.SetRate | firmware/lib/dac.c:100-118 | accepts exactly the rates the assertions allow |
| Dac.Control.RateQueue | firmware/lib/dac.c:153-178 | refused exactly when idle or when 199 rates wait |
| Dac.Control.Request | firmware/lib/dac.c:187-214 | the contiguous room at the write position, -1 when idle |
| Dac.Control.Advance | firmware/lib/dac.c:228-233 | moves the write position round the ring unless idle |
| Dac.Control.GetFullness | firmware/lib/dac.c:568-573 | the number of points still to be played |
| Dac.Control.SetShutter | firmware/lib/dac.c:579-593 | opens only while playing, closes always, and touches nothing else |
| Dac.Control.HandleIrq | firmware/lib/dac.c:625-644 | plays the oldest unread point and leaves the rest and the state; with none left the DAC is idle, the shutter closed and the underflow flag set |
| Dac.Control.EmergencyStop | firmware/lib/lightengine.c:35-41 | records the causes, enters emergency stop and stops the DAC |
| Dac.Control.ClearEstop | firmware/lib/lightengine.c:43-47 | ready again exactly when no cause is left, else as before |
| Dac.Control.SetSource | firmware/lib/playback.c:30-47 | refused exactly when leaving a network stream that is not idle, and then changes nothing; a real change leaves the DAC idle with timer off, shutter closed and the flag raised, and nothing else changed; the safety promises are kept |
| Dac.Control.PopRateChange | firmware/lib/dac.c:500-509 | takes the oldest rate and fails exactly where its assertion would |
| DacRing.RingSafety | firmware/lib/dac.c:187-233 | with interrupts between any two producer steps: points played are a prefix of points announced, at most 1799 are held, the region being written never meets an unread point, a request finds no room exactly when 1799 were held when it looked |
| DacRing.StaleIsConservative | firmware/lib/dac.c:188-213 | a consume value that has gone stale only makes the grant smaller |
| DacRing.CommitKeeps | firmware/lib/dac.c:228-233 | announcing after any number of interrupts still appends exactly the points written |
| DacRing.InterruptKeeps | firmware/lib/dac.c:625-644 | an interrupt at any moment plays the next point in order or leaves the ring alone |
| PointStream.FeedConcat | firmware/net/point-stream.c:212-489 | feeding a stream in two parts, leftovers kept, is feeding it whole |
| PointStream.StoredBatch | firmware/net/point-stream.c:394-458 | taking as many points as fit packet, command and room at once is taking them one by one |
| PointStream.DroppedBatch | firmware/net/point-stream.c:460-481 | the same for points thrown away |
| PointStream.DataStored | firmware/net/point-stream.c:390-481 | a data command stores the longest prefix of its points that fits, in order, and gets one reply: ACK when all fitted, NAK otherwise |
| PointStream.FeedSafe | firmware/net/point-stream.c:212-489 | no byte stream whatever breaks the emergency-stop, shutter and timer promises of Dac.AlwaysSafe |
| PointStream.StallsExactly | firmware/net/point-stream.c:535 | the progress assertion can fire on a completed command only for a refused rate |
| PointStream.SplitIndependence | firmware/net/point-stream.c:491-582 | for every split into non-empty packets of a stream without refused rates: same replies, same stored points, same leftover, no assertion |
| PointStream.SplitsAgree | firmware/net/point-stream.c:491-582 | all splits agree with the undivided stream if and only if it meets no refused rate |
| PointStream.BadRateSplit | firmware/net/point-stream.c:235-236 | a cut behind the first byte of a refused rate command runs into the progress assertion |
| PointStream.Connection.RecvFsm | firmware/net/point-stream.c:212-489 | consumes whole units so that the rest of the stream means the same; 0 exactly when data holds no whole unit |
| PointStream.Connection.RecvPoints | firmware/net/point-stream.c:390-458 | stores a batch, or turns to dropping the command when there is no room |
| PointStream.Connection.RecvRate | firmware/net/point-stream.c:228-273 | begin, update and queue: the size, the limit, and where the rate assertion halts the device |
| PointStream.Connection.RecvShort | firmware/net/point-stream.c:220-345 | prepare, stop, emergency stop, clear, ping, version: their effects and when they are refused |
| StreamCommands.EmergencyStop | firmware/net/point-stream.c:307-311 | byte 0 or 0xFF, whatever the state: the cause is added, the light engine stopped, the DAC idle, timer off and shutter closed, the flag raised, one ACK that already reports it, and nothing else changes |
| StreamCommands.StopStream | firmware/net/point-stream.c:298-306 | 's' makes a DAC that is not idle idle, timer off, shutter closed; an idle one refuses it and is left alone |
| StreamCommands.ClearStop | firmware/net/point-stream.c:313-319 | 'c' takes away just the four causes that can be cleared; it is acknowledged exactly when the light engine is then ready, which it is when no cause is left |
| StreamCommands.PrepareStream | firmware/net/point-stream.c:220-226 | 'p' prepares an idle DAC with a ready light engine, rings and flags empty; any other refuses it and is left alone |
| StreamCommands.AskStatus | firmware/net/point-stream.c:321-343 | '?' and 'v' are answered and change nothing |
| StreamCommands.UnknownByte | firmware/net/point-stream.c:342-344 | a byte that begins no command ends the connection and leaves the device |
| StreamCommands.RateTooHigh | firmware/net/point-stream.c:228-273 | a rate above 100000 is refused by 'b', 'u' and 'q', which then consume one byte |
| StreamCommands.BeginStream | firmware/net/point-stream.c:228-244 | 'b' sets the rate, and starts a prepared DAC with timer, interrupt action and shutter; any other state only takes the rate |
| StreamCommands.UpdateRate | firmware/net/point-stream.c:245-259 | 'u' sets the rate and nothing else |
| StreamCommands.RateZero | firmware/net/point-stream.c:228-258 | 'b' and 'u' with rate 0 run into an assertion |
| StreamCommands.QueueRate | firmware/net/point-stream.c:261-273 | 'q' queues the rate behind the others unless the DAC is idle or 199 wait, and is acknowledged in every case |
| StreamCommands.DataHeader | firmware/net/point-stream.c:275-296 | 'd' announces its points, or is acknowledged when there are none |
| PointStream.Connection.RecvHeader | firmware/net/point-stream.c:275-296 | a data header starts a command of its size; one of no points is acknowledged at once |
| PointStream.Connection.UseBuffered | firmware/net/point-stream.c:505-545 | waiting bytes and new ones are read as one stream, except for a refused rate |
| PointStream.Connection.ProcessPacket | firmware/net/point-stream.c:491-582 | a chain of packet buffers is read as the sequence of its parts; nothing follows the end of the stream |
| FlowControl.FlowControlled | driver/libetherdream/etherdream.c:408-606 | over every run of host and device on which no data command is sent while 63 are outstanding: no data refused for a full ring, no protocol error, every item on the wire parses, and the host's accounts balance |
| FlowControl.FlowExact | driver/libetherdream/etherdream.c:408-606 | over any run all of that holds at every moment if and only if no data command is sent while 63 are outstanding |
| FlowControl.CrowdedLoses | driver/libetherdream/etherdream.c:413-419 | after a data command sent with 63 outstanding the ring looks empty, and in every run from there the host has failed or waits for at least 64 replies: it reports an error before it has read them |
| FlowControl.CrowdedReached | driver/libetherdream/etherdream.c:408-606 | a run from a fresh connection to a prepared, empty device: 63 turns of one point each without an answer, after which the next send is such a one |
| FlowControl.ActKeeps | driver/libetherdream/etherdream.c:408-606 | each single step of either side keeps the invariant if and only if it is not such a send |
| FlowControl.InitialInv | driver/libetherdream/etherdream.c:371-382 | a connection just made to a device in any state starts out in balance, however full its buffer |
| FlowControl.Accounting | driver/libetherdream/etherdream.c:564-566 | points held and in flight are the last reported fullness plus the unacknowledged points less what left the ring or was refused since |
| FlowControl.CapExact | driver/libetherdream/etherdream.c:554-569 | the amount chosen aims at 1700 and misses by exactly the error of the estimate, less what was refused meanwhile |
| FlowControl.SlackExact | driver/libetherdream/etherdream.c:554-606 | with nothing on the wire and nothing played meanwhile, what the host sends is all accepted if and only if its estimate was at most 99 too high |
| FlowControl.SendFits | firmware/net/point-stream.c:390-481 | uninterrupted, a data command is refused exactly when it does not fit |
| FlowControl.DecideNegative | driver/libetherdream/etherdream.c:561-576 | the amount chosen is negative exactly when the device does not play and holds, as far as the host knows, more than 1700 points |
| FlowControl.DecideGreatest | driver/libetherdream/etherdream.c:561-606 | the amount chosen is the greatest that the frame has left, that a turn may send and that brings the device to 1700 as far as the host knows; while playing it waits until there is room for more than 40 |
| FlowControl.BeginOnce | driver/libetherdream/etherdream.c:476-490 | over every run no more begin commands are sent than replies from an idle device were read, and one |
| FlowControl.Believes | driver/libetherdream/etherdream.c:408-432 | over every run, the state and fullness the host goes by are those of the last reply it read |
| FlowControl.ReceiveKeeps | firmware/net/point-stream.c:212-489 | the device can take the next item at any time; it moves points from the wire to the ring or refuses them, for lack of room only when there is none, and what is owed to the host stays as it is |
| FlowControl.ChannelsKept | driver/libetherdream/etherdream.c:408-519 | whatever happens, only sending data adds to what is owed and only reading a data reply takes off it, the oldest first |
| FlowControl.RingKept | driver/libetherdream/etherdream.c:408-519 | the host's ring of 64 still agrees with what is owed, and the host has not failed, exactly after any step other than a data command with 63 outstanding |
| FlowControl.SendKeeps | driver/libetherdream/etherdream.c:457-519 | prepare, begin and data keep the channels whole, a data command is owed one reply of its size, and the points outstanding and still to be sent do not grow |
| FlowControl.OutstandingKept | driver/libetherdream/etherdream.c:551-606 | with an estimate at most 99 too high, points outstanding and still to be sent stay below the size of the ring, and nothing is refused for a full ring |
| FlowControl.OnTheWire | firmware/net/point-stream.c:212-489 | the items of the model are what the device's byte stream makes of their bytes |
| PointFlow.PointsArrive | driver/libetherdream/etherdream.c:457-519 | over every run from a fresh connection: what enters the device's rings is among the points and rates given, in order; and ring before plus points given is points played plus ring after plus points on the wire, if and only if no point was refused and no prepare found points in the ring |
| PointFlow.InOrder | driver/libetherdream/etherdream.c:502-509 | over every run the device has taken a first part of what was given, the rest is on the wire, byte for byte but for the rate-change flag of each command's first point; the points of that part that did not enter are those counted as dropped |
| PointFlow.RingFlow | firmware/lib/dac.c:187-233 | over every run the ring loses its oldest points and gains those that entered; all it loses is played if and only if no prepare found points in it |
| AckQueue.PushExact | driver/libetherdream/etherdream.c:512-516 | one more outstanding command is recorded rightly exactly when that makes fewer than 64; the 64th makes the queue look empty |
| AckQueue.AccountsHold | driver/libetherdream/etherdream.c:408-432 | over any traffic with fewer than 64 outstanding, the unacknowledged count is the sum of the sizes owed, oldest first |
| AckQueue.AckRing.Push | driver/libetherdream/etherdream.c:512-516 | a ring that agrees with what is owed agrees with one command more exactly when that makes fewer than 64 |
| AckQueue.AckRing.Pop | driver/libetherdream/etherdream.c:413-419 | a ring that agrees with what is owed settles the oldest command and agrees with the rest, or reports that none is owed |
| FrameQueue.Exclusion | driver/libetherdream/etherdream.c:719-774 | for every interleaving, reads in front of the frame included: the slot being filled is never the one being sent, at most two frames queue, and they stand as they were written |
| FrameQueue.WholeFrames | driver/libetherdream/etherdream.c:600-650 | while no negative amount is chosen, what goes out is whole frames in writing order, none skipped or torn, and nothing is read in front of a frame |
| FrameQueue.TurnExact | driver/libetherdream/etherdream.c:617-631 | a turn of the sending loop keeps whole frames whole if and only if the amount was not negative |
| FrameQueue.RewindRepeats | driver/libetherdream/etherdream.c:624 | after a negative amount, however large, the points of the frame before the old place are sent again in the same pass |
| FrameQueue.TurnStrays | driver/libetherdream/etherdream.c:617-631 | a turn leaves the place in front of the frame if and only if the amount takes it there, and the next points sent are then read from there, as many as the place is in front |
| FrameQueue.HostStrays | driver/libetherdream/etherdream.c:561-624 | the host's own choice does that if and only if the device does not play and fewer points of the frame were sent than the device holds, as far as the host knows, above 1700 |
| FrameQueue.StrayReached | driver/libetherdream/etherdream.c:561-624 | a run: on a fresh connection to a prepared device that holds more than 1700 points, the first turn over the first frame does that |
| FrameQueue.FillKeeps | driver/libetherdream/etherdream.c:748-763 | the writer, outside the mutex and point by point, never touches a queued frame |
| FrameQueue.AccountExact | driver/libetherdream/etherdream.c:624-650 | at the end of a pass (repeat, next frame, idle or round again) exactly the frame's points have gone out |
| FrameRepeats.Repeats | driver/libetherdream/etherdream.c:624-650 | for every interleaving: a frame the loop has moved past was played as often as its repeat count says, at least once, and once more for each pass that found no frame behind it; never more often, and exactly so if the host was not told to stop |
| FrameQueue.ShutdownLost | driver/libetherdream/etherdream.c:643-646 | of all steps exactly two take a request to end back: a frame just written, and the end of the last pass over the only frame |
| FrameQueue.DisconnectStands | driver/libetherdream/etherdream.c:684-695 | the request stands through any steps if and only if none of those is among them |
| FrameQueue.DisconnectOverwritten | driver/libetherdream/etherdream.c:643-646 | the loop then waits for a frame exactly when it ends the only frame, with at most one repetition left, repeats cut to 0 included |
| Skub.InitialPool | firmware/lib/skub.c:80-88 | after initialisation exactly the chunks of the pool are free, less the last 32 when the size is a multiple of 32 |
| Skub.SizedPools | firmware/lib/skub.c:65-73 | the two sized pools are laid out as the allocator needs and lose nothing |
| Skub.ChunksDisjoint | firmware/lib/skub.c:128-129 | no byte belongs to two chunks, of one pool or of two |
| Skub.AddressExact | firmware/lib/skub.c:205-212 | the address of a chunk lies in its pool and leads back to the chunk |
| Skub.Allocator.InitPool | firmware/lib/skub.c:80-88 | sets one pool's words and no other's |
| Skub.Allocator.AllocFromPool | firmware/lib/skub.c:106-135 | the lowest free chunk, however often the exclusive store fails first; none exactly when the pool is exhausted |
| Skub.Allocator.AllocSized | firmware/lib/skub.c:147-178 | a chunk of the first pool that is long enough and not exhausted; none exactly when there is no such pool |
| Skub.Allocator.FreeTo | firmware/lib/skub.c:180-197 | gives the chunk back, or fails exactly where the assertions do |
| Skub.Allocator.FreeSized | firmware/lib/skub.c:199-225 | the chunk goes back to the one pool it came from; an address that is no chunk is refused |
| SkubRace.NoChunkTwice | firmware/lib/skub.c:147-225 | for every interleaving of sized allocations, frees and interrupts, in every pool: each chunk is free or handed out once, and their number is that of the pool |
| SkubRace.FailedCallSawEmpty | firmware/lib/skub.c:147-178 | for every interleaving, a call that returns nothing has since it began found every word of every pool long enough empty |
| SkubRace.FailsExactly | firmware/lib/skub.c:111-134 | a load ends a call with nothing exactly when it finds the last word of the last such pool empty |
| SkubRace.OneWordFailsExactly | firmware/lib/skub.c:111-134 | for pools of one word, as both sized pools are, that is exactly when this last pool is exhausted |
| SkubRace.FreedTooLate | firmware/lib/skub.c:159-171 | a chunk freed in a word or pool the call has passed goes unseen, and the call fails although it is free |
| SkubRace.FailureWrongExactly | firmware/lib/skub.c:147-225 | over every interleaving, a call returned nothing although a long enough chunk is free if and only if such a chunk was freed after the call had passed its word |
| SkubRace.WrongFailure | firmware/lib/skub.c:147-225 | a run of ten steps from the beginning that ends in such a failure |
| SkubRace.UndisturbedFailure | firmware/lib/skub.c:147-178 | if no chunk is freed while it runs, a failing call means every pool long enough is exhausted |
| SkubRace.StoreKeeps | firmware/lib/skub.c:113-129 | a store that succeeds hands out a chunk that was free, of the pool the call is at |
| SkubRace.ReleaseKeeps | firmware/lib/skub.c:214-219 | a bit-band write frees one chunk whatever other callers have loaded |

## Left out

- FatFs writing, long names and code pages, path following, `f_open`, the search for the boot sector and the check of mount identifiers: the build is read-only, and names only add case tables.
- FatFs.FileSystem.MoveWindow: which bytes a failed transfer leaves in the window is left open, so validity of the window is only promised until the first disk error.
- FatFs.File.Read: after an error the file is only known to be marked as failed, which is all the code checks.
- IldaPlayer.Player.ReadHeader: WAV files are recognised and not played; a header of no points is modelled with a division by zero that yields zero, as the processor's divide instruction does.
- IldaPlayer.Player.ReadPoints: stops at a WAV file, where the source goes on to play it.
- IldaPlayer.Player.DoReadPoints: the packing of a point into the 14 bytes of the ring (`dac_pack_point`) is left out; points are compared before packing.
- Bootloader.DamageRefused: a change of the length vector moves the CRC word too, and may go unnoticed.
- Bootloader.Loader.HandleDataBlock: what a whole second download without a reset leaves in flash is not worked out; block by block its effect is stated, with the last erased sector still remembered.
- Bootloader.Loader.AttemptFileBootload: choosing the file name, mounting and opening come before it.
- DfuHandshake.Handshake: no bus reset occurs during the download; the host's data stage, block number and 64-byte buffer are one event, and so is handling a block.
- Dac.AlwaysSafe: each call is one step. An emergency stop between the check and the state write inside `dac_prepare` or `dac_start` is not modelled. The light engine never enters its warm-up and cool-down states.
- Dac: colour delay lines, gains, the transform, the output registers and the 12-bit interrupt handler apart from its choice between buffer, generator and underflow.
- `le_get_flags`, which returns the state instead of the flags, is not part of the status in PointStream.
- PointStream.Connection.RecvShort: plugin commands (`I`, `P`, `D`) end the modelled stream, because they run received code.
- PointStream.SplitsAgree: no points are played while the stream is fed, every reply can be sent at once (no deferred acknowledgements and no failed sends), and the stream stays open.
- FlowControl.FlowControlled: replies are not deferred; time is only seen through the estimate; rates are in 1..100000. While it waits for the reply to a prepare, `dac_loop` ignores that the acknowledgements were out of step; the model records the failure there as everywhere else.
- FlowControl.DecideNegative: the amount chosen can be zero or negative while the device is not playing; then nothing is sent. What the host does with its place in the frame is in FrameQueue.
- FrameQueue.TurnStrays: points read from in front of a frame are counted and not valued, since what lies there is no part of the program's state.
- FrameQueue.Exclusion: one writer thread. The last frame stays in its slot and is sent again when the next one arrives.
- Skub.Allocator.AllocSized: the number of failed exclusive stores is a parameter; what other callers do meanwhile is in SkubRace.
- Flash.Device.CopyRamToFlash: a copy that leaves the prepared sector is taken to fail without programming anything.
- Sockets, lwIP, USB, SD card, serial output, OSC and the hardware registers.
