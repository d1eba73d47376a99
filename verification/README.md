# Verified models of the LUFA bootloaders

Every bootloader in this repository turns bytes from a USB host into flash and EEPROM contents with
the same three hardware steps: erase a page, load words into a temporary page buffer, commit the
buffer to the page. This project models that memory once and puts five engines on it:

- the printer bootloader, a streaming Intel HEX parser (`Printer*`, `HexText`);
- the DFU bootloader, a request-driven state machine with a secure mode (`Dfu*`);
- the mass-storage bootloader, a FAT12 disk made up on the fly, with SCSI block commands above it
  and the loop that ends it (`Fat*`, `VirtualFat*`, `Scsi*`, `MassStorageLoop`, `Endianness`);
- the HID bootloader with its command-line loader, as a protocol of two parties (`Hex*`, `Hid*`);
- the CDC bootloader, an AVR109 command interpreter over packet streams (`Cdc*`).

Each engine comes twice. The modules named `...Device`, and the classes in `Printer`, `HexReader` and
`Hid`, are the code: static variables as fields, loops over endpoints and memory as loops, memory as
arrays updated in place (`Devices`). Their methods are proved equal to functions on values (`Chips`,
`Dfu`, `VirtualFat`, `Scsi`, `Cdc`, ...). The results are lemmas about those functions: statements
about every text, every request sequence, every directory, every way of cutting a stream into packets.

`dafny verify dfyconfig.toml` checks the project. Flash pages are 128 or 256 bytes. Committing a page
ANDs the buffer into flash, so a page that was not erased first keeps its old zeros, and every equation
between flash and data below includes that erasure. The page buffer is blank after a commit, and
address bits beyond the flash are not decoded.

## Main results

- **DFU secure mode hides the firmware.** Two devices in secure mode that differ only in application
  flash answer every request sequence alike, and are equal once unlocked.
- **HEX over the printer class.** A well-formed file, in any split into records and with any
  separators, ends up in flash exactly when its last page was flushed. On every text whatsoever the
  parser's registers, the page it is at, the moment the bootloader exits and whether the boot section
  survives are what the text alone says.
- **Two HEX readers.** The streaming parser and the host loader agree on the bytes of a file under the
  same exact condition; the host loader accepts a file exactly when its records are sound.
- **The disk is a plain sector array** over the two files for every sequence of reads and writes, and a
  host that follows directory, table and clusters reads as much of the flash and the EEPROM as the
  directory gives them in size.
- **HID delivery.** A HEX file read by the host loader and programmed by its loop against the device
  handler is all in flash afterwards, whatever the part held before, exactly when it lies within the
  part and outside the pages that the loader cannot address.
- **DFU download and upload** return the firmware, exactly for the flash ranges of even length that start
  on a packet boundary and on a page boundary or stay within a page, and for the EEPROM ranges that start
  on a packet boundary.
- **CDC programming.** Block writes and reads round-trip over any packet split, for flash page by page
  and for EEPROM in blocks of any length. From one queue of packets the tasks take the commands that
  the host sent exactly when every command ends where a packet ends.

## Where the code does not do what is intended

Each of these has a lemma with a concrete input and a lemma that gives the exact condition.

- An image whose last page is not flushed by a later address is lost (`HexFiles.ShortImageLost`,
  `PrinterProgramming.FileProgrammed`).
- The printer parser assembles extended addresses low byte first (`PrinterProgramming.ExtendedSwapped`,
  `HexFiles.ExtendedAgree`).
- The printer parser refuses data for the boot section, but erases and commits the page that it last
  moved on to, which can be in the boot section (`PrinterGuard.GuardEscaped`,
  `PrinterGuard.GuardExactly`).
- The DFU bootloader drops one alignment byte too few per packet boundary, a range that crosses a page
  without starting on one wraps in the page buffer, and an odd last byte is not programmed
  (`DfuAlignment.MisalignedByTwo`, `DfuAlignment.WrappedFrom32`, `DfuAlignment.OddLengthCut`,
  `DfuAlignment.DownloadExactly`; `DfuEeprom.MisalignedByOne`, `DfuEeprom.EepromExactly`).
- Neither clearing the status, nor an erase, nor a passed blank check ends the DFU error state, so a
  blank device can report a used address (`DfuTransfer.BlankReportedUsed`, `DfuTransfer.BlankCheckExact`,
  `DfuTransfer.EraseThenBlankCheck`).
- Writing an even FAT12 entry overwrites four bits of the next one, which breaks the flash file's chain
  when the EEPROM file ends just before it on an even cluster (`FatTable.DamagedChain`,
  `FatTable.ChainsExactly`).
- SCSI block addresses are cut to 16 bits before the range check, which looks at the first block only
  (`Scsi.FarAddressRead`, `Scsi.OffTheEnd`, `Scsi.RefusedExactly`).
- The size of EEPROM.BIN is the last EEPROM address, so a host that keeps to it never reads the last
  byte (`VirtualFatHost.InitialDirectory`, `VirtualFatHost.EepromFileRead`).
- The HID loader drops loaded bytes beyond the part's flash without an error
  (`HidTransfer.BeyondFlashLost`, `HidTransfer.DeliversExactly`).
- On 64 KB parts the HID loader shifts page addresses and the device does not; on 128 KB parts the page
  at 0xFF00 cannot be delivered (`HidTransfer.SecondPageLost`, `HidTransfer.LastPageLost`,
  `HidTransfer.DeliversExactly`).
- The AVR109 address is computed in 16-bit signed arithmetic, which misplaces the middle half of the
  addresses of 128 KB parts (`CdcStreams.HighAddressMissed`, `CdcStreams.AddressExactly`).
- The CDC task drops what is left of the packet in which a command ends, and with it any command there
  (`CdcSessions.SharedPacket`, `CdcSessions.ServedExactly`).

Where comments and code disagree the model follows the code. The DFU request to clear the status is
documented to reset status and state (src/Bootloaders/DFU/BootloaderDFU.h:122) and resets only the
status (src/Bootloaders/DFU/BootloaderDFU.c:515-522). The FAT12 helper is documented to update one
cluster entry (src/Bootloaders/MassStorage/Lib/VirtualFAT.c:234-244) and can change two.

## Model

| member | source | states |
|---|---|---|
| `Devices.Device.ErasePage` | src/Bootloaders/MassStorage/BootloaderAPI.c:38-43 | erasing in place blanks exactly the page an address lies in |
| `Devices.Device.FillWord` | src/Bootloaders/MassStorage/BootloaderAPI.c:52-55 | loading a word changes exactly its two bytes of the page buffer |
| `Devices.Device.WritePage` | src/Bootloaders/MassStorage/BootloaderAPI.c:45-50 | committing ANDs the buffer into exactly the page an address lies in and blanks the buffer |
| `Devices.Device.EraseApplication` | src/Bootloaders/DFU/BootloaderDFU.c:759-779 | the erase loop blanks the application section and leaves the boot section, up to what the page buffer held |
| `Programming.ErasedPageProgrammed` | src/Bootloaders/CDC/BootloaderCDC.c:301-345 | erase, word fills and commit leave exactly the data in the page, the rest of it blank and other pages untouched |
| `Programming.ProgrammedConcat` | src/Bootloaders/DFU/BootloaderDFU.c:330-347 | programming page after page is programming the concatenation |
| `Programming.StreamedWord` | src/Bootloaders/MassStorage/Lib/VirtualFAT.c:335-353 | one more word of a stream with erase on page entry and commit on page end keeps the invariant of streamed programming |
| `Printer.Bootloader.FlushPageIfRequired` | src/Bootloaders/Printer/BootloaderPrinter.c:158-175 | the in-place flush commits a dirty page exactly if the current address has left it, and moves on to the page of that address |
| `Printer.Bootloader.ProcessWord` | src/Bootloaders/Printer/BootloaderPrinter.c:259-291 | a completed word is loaded at the current address, erasing first a page that was clean, or becomes a base address, as the value model says |
| `Printer.Bootloader.ProcessByte` | src/Bootloaders/Printer/BootloaderPrinter.c:212-314 | one decoded byte drives the record state machine as the value model says |
| `Printer.Bootloader.ParseIntelHEXByte` | src/Bootloaders/Printer/BootloaderPrinter.c:183-315 | one character drives parser and memory as the value model says |
| `Printer.Bootloader.Receive` | src/Bootloaders/Printer/BootloaderPrinter.c:327-349 | the main loop parses received characters a batch at a time and stops after the batch that clears the run flag |
| `PrinterStreams.SessionStops` | src/Bootloaders/Printer/BootloaderPrinter.c:327-349 | the loop is the run over the characters of the batches up to the first that leaves the flag cleared, however they are cut |
| `PrinterStreams.SeparatorsIgnored` | src/Bootloaders/Printer/BootloaderPrinter.c:183-211 | characters that are neither a colon nor an upper-case digit do not change any run |
| `PrinterStreams.RegistersFollowLine` | src/Bootloaders/Printer/BootloaderPrinter.c:183-315 | after every text the parser waits if and only if no line was begun or the current one was given up, and otherwise its state, checksum (the sum modulo 256 of the bytes since the last colon), countdown, type and address are those of the current line; the base address always is; all of them read off the text without the parser |
| `PrinterStreams.AbandonedCut` | src/Bootloaders/Printer/BootloaderPrinter.c:240-250 | a line is given up if and only if a data byte comes when base, address and two for every earlier word of data reach the boot section |
| `PrinterStreams.DataRemPositive` | src/Bootloaders/Printer/BootloaderPrinter.c:240-242 | after every text that leaves the parser in data bytes the countdown is at least one, so its decrement never wraps |
| `PrinterStreams.ExitExactly` | src/Bootloaders/Printer/BootloaderPrinter.c:297-309 | over every text the run flag is cleared if and only if some prefix ends with an end-of-file record whose checksum byte makes the sum zero and which was not given up; the condition is about the text alone |
| `PrinterProgramming.RunHexAll` | src/Bootloaders/Printer/BootloaderPrinter.c:142-211 | printed bytes are decoded to themselves, two digits a byte |
| `PrinterProgramming.RunDataRecord` | src/Bootloaders/Printer/BootloaderPrinter.c:212-309 | a whole printed data record of even length that continues the image extends the streamed image by its data |
| `PrinterProgramming.RunEndRecord` | src/Bootloaders/Printer/BootloaderPrinter.c:183-315 | a correct end-of-file record clears the flag and commits the page in progress exactly if its address lies in another page |
| `PrinterProgramming.FileProgrammed` | src/Bootloaders/Printer/BootloaderPrinter.c:158-315 | for every file of contiguous even-length data records and any separators the bootloader exits, and flash is the image (last page padded with 0xFF, others untouched) if and only if the last page was flushed |
| `PrinterProgramming.WholePageImagesProgrammed` | src/Bootloaders/Printer/BootloaderPrinter.c:158-315 | with the end-of-file record at address 0 every image of at least one page and at most the application section is programmed |
| `PrinterProgramming.ExtendedAddress` | src/Bootloaders/Printer/BootloaderPrinter.c:259-290 | from every state a printed extended address record sets the base from its two bytes low byte first, or leaves it if the record is addressed to the boot section |
| `PrinterProgramming.ExtendedSwapped` | src/Bootloaders/Printer/BootloaderPrinter.c:259-290 | the record for base 0x10000 sets base 0x1000000 |
| `PrinterProgramming.CutAtOnce` | src/Bootloaders/Printer/BootloaderPrinter.c:244-250 | a printed record of any type whose data is addressed to the boot section changes neither flash nor base nor run flag |
| `PrinterProgramming.EndRecordGivenUp` | src/Bootloaders/Printer/BootloaderPrinter.c:240-250 | an end-of-file record of correct checksum with two data bytes for 0xFFFE does not end the bootloader |
| `PrinterGuard.PagesFollow` | src/Bootloaders/Printer/BootloaderPrinter.c:158-175 | after every text the page that the parser is at, and whether words are loaded for it, are what the text alone says |
| `PrinterGuard.TouchesExactly` | src/Bootloaders/Printer/BootloaderPrinter.c:240-274 | after every text the next character makes the parser erase a page of the boot section if and only if the text says that it completes a data word which is the first while the parser is at such a page |
| `PrinterGuard.Overwritten` | src/Bootloaders/Printer/BootloaderPrinter.c:262-274 | from then on what the cells of that page hold does not depend on what they held before the text |
| `PrinterGuard.GuardExactly` | src/Bootloaders/Printer/BootloaderPrinter.c:244-280 | the boot section is the same after a text as before it, whatever the flash held, if and only if no character of the text does so |
| `PrinterGuard.GuardEscaped` | src/Bootloaders/Printer/BootloaderPrinter.c:244-280 | a record for the last word below the boot section and one for address 0, of any data and checksums, put the second record's data at the start of the boot section |
| `DfuDevice.Bootloader.DiscardFillerBytes` | src/Bootloaders/DFU/BootloaderDFU.c:555-575 | the loop drops bytes as the value model says, one fewer at each packet boundary |
| `DfuDevice.Bootloader.LoadStartEndAddresses` | src/Bootloaders/DFU/BootloaderDFU.c:629-641 | address registers are loaded from the command's big-endian parameters, and nothing else changes |
| `DfuDevice.Bootloader.ProcessMemProgCommand` | src/Bootloaders/DFU/BootloaderDFU.c:646-671 | the program command sets addresses and state and erases the first flash page |
| `DfuDevice.Bootloader.ProcessMemReadCommand` | src/Bootloaders/DFU/BootloaderDFU.c:677-714 | the read command, and the blank check by search from address 0 for the first non-blank byte |
| `DfuDevice.Bootloader.ProcessWriteCommand` | src/Bootloaders/DFU/BootloaderDFU.c:720-780 | start of the application, and erasure of the application section with the unlock that follows |
| `DfuDevice.Bootloader.ProcessReadCommand` | src/Bootloaders/DFU/BootloaderDFU.c:785-803 | identification bytes are answered from a table by index |
| `DfuDevice.Bootloader.ProcessBootloaderCommand` | src/Bootloaders/DFU/BootloaderDFU.c:581-624 | dispatch; in secure mode all but erase and read are refused with the error state |
| `DfuDevice.Bootloader.WriteFlash` | src/Bootloaders/DFU/BootloaderDFU.c:293-355 | the word loop over packets programs flash as the value model says, and reports a host that detaches |
| `DfuDevice.Bootloader.WriteEeprom` | src/Bootloaders/DFU/BootloaderDFU.c:356-378 | the byte loop over packets writes EEPROM as the value model says |
| `DfuDevice.Bootloader.SendFlash` | src/Bootloaders/DFU/BootloaderDFU.c:415-456 | the packets sent are the flash range cut into full packets and a last one |
| `DfuDevice.Bootloader.SendEeprom` | src/Bootloaders/DFU/BootloaderDFU.c:457-479 | the packets sent are the EEPROM range, and the start address ends one past it |
| `DfuDevice.Bootloader.HandleDownload` | src/Bootloaders/DFU/BootloaderDFU.c:237-389 | the whole download request: command, parameters, filler, firmware |
| `DfuDevice.Bootloader.HandleUpload` | src/Bootloaders/DFU/BootloaderDFU.c:390-488 | the whole upload request: blank check result, identification or memory |
| `DfuDevice.Bootloader.ControlRequest` | src/Bootloaders/DFU/BootloaderDFU.c:220-548 | every control request changes the state and answers as the value model says |
| `DfuSecurity.ProcessLocked` | src/Bootloaders/DFU/BootloaderDFU.c:581-624 | while locked a command changes only state, status and response byte unless it unlocks, and nothing locks again |
| `DfuSecurity.HandleIndistinguishable` | src/Bootloaders/DFU/BootloaderDFU.c:220-548 | one request keeps two devices that differ in application flash alike and answers them alike while locked |
| `DfuSecurity.RunIndistinguishable` | src/Bootloaders/DFU/BootloaderDFU.c:220-548 | the same over every request sequence |
| `DfuSecurity.SecureRunsIndependent` | src/Bootloaders/DFU/BootloaderDFU.c:581-624 | from reset in secure mode all responses to every request sequence are independent of the application flash, and after unlocking the two devices are equal |
| `DfuSecurity.SecureRunUntouched` | src/Bootloaders/DFU/BootloaderDFU.c:237-389 | in every run that ends secure the memory and the address registers are as at reset and the state is idle or error |
| `DfuSecurity.SecureErrorKept` | src/Bootloaders/DFU/BootloaderDFU.c:515-546 | a device that stays secure leaves the error state by an abort and by no other request |
| `DfuSecurity.AttachedRunBlank` | src/Bootloaders/DFU/BootloaderDFU.c:309-348 | in every run without detach the page buffer is blank between requests |
| `DfuTransfer.ProgramWordsImage` | src/Bootloaders/DFU/BootloaderDFU.c:309-348 | for every packet split into words the loop programs exactly the stream at an aligned address or within a page |
| `DfuTransfer.DownloadProgrammed` | src/Bootloaders/DFU/BootloaderDFU.c:277-383 | a download request for a downloadable range makes flash the payload over erased pages, other pages and all other state untouched |
| `DfuTransfer.FirmwareRead` | src/Bootloaders/DFU/BootloaderDFU.c:286-290 | the bytes read for a payload are those behind the alignment, and off a packet boundary also its last byte |
| `DfuTransfer.UploadHandled` | src/Bootloaders/DFU/BootloaderDFU.c:415-456 | a read command and an upload return the addressed flash bytes in packets |
| `DfuTransfer.DownloadThenUpload` | src/Bootloaders/DFU/BootloaderDFU.c:277-483 | the packets of the upload after a download concatenate to the payload |
| `DfuTransfer.BlankCheckExact` | src/Bootloaders/DFU/BootloaderDFU.c:688-714 | from every state that is not secure the check ends in the error state if and only if it was in it before or a non-blank byte exists below the boot section; the registers and the upload then name the least such byte, or are as before |
| `DfuTransfer.EraseThenBlankCheck` | src/Bootloaders/DFU/BootloaderDFU.c:759-779 | the erase command unlocks and blanks the application section up to the page buffer; a check straight after it fails if and only if the buffer was not blank or the device was in the error state |
| `DfuTransfer.RefusalReported` | src/Bootloaders/DFU/BootloaderDFU.c:489-546 | a command refused in secure mode is stalled and reported as a write error; clearing the status leaves the error state, an abort ends it |
| `DfuTransfer.BlankReportedUsed` | src/Bootloaders/DFU/BootloaderDFU.c:399-412 | a secure device that refused a read, had its status cleared and was erased is blank and reports the error state and a first used address |
| `DfuAlignment.MisalignedWrong` | src/Bootloaders/DFU/BootloaderDFU.c:555-575 | at an even start off a packet boundary the last alignment byte lands at the first firmware address, so the range does not hold the payload |
| `DfuAlignment.WrappedWrong` | src/Bootloaders/DFU/BootloaderDFU.c:309-348 | a range that crosses a page boundary without starting on one does not receive its byte for the start of the next page |
| `DfuAlignment.LastByteUnread` | src/Bootloaders/DFU/BootloaderDFU.c:286-348 | off a packet boundary, and for odd lengths, the last byte of the payload has no influence on flash at all |
| `DfuAlignment.DownloadExactly` | src/Bootloaders/DFU/BootloaderDFU.c:277-383 | for every start and every length, odd ones included: the range holds every payload of that length, and then all other flash is right too, if and only if the length is even and the range starts on a packet boundary and on a page boundary or stays in one page |
| `DfuAlignment.MisalignedByTwo` | src/Bootloaders/DFU/BootloaderDFU.c:286-290 | the firmware 0x12 0x34 for address 2 is not programmed |
| `DfuAlignment.WrappedFrom32` | src/Bootloaders/DFU/BootloaderDFU.c:309-348 | firmware for 128 bytes from address 32 on of a part with 128-byte pages is not programmed |
| `DfuAlignment.OddLengthCut` | src/Bootloaders/DFU/BootloaderDFU.c:297-309 | the single byte 0x12 for address 0 is not programmed |
| `DfuEeprom.EepromDownloaded` | src/Bootloaders/DFU/BootloaderDFU.c:286-381 | what a download request of any length puts into EEPROM, on and off packet boundaries, with all other memory untouched |
| `DfuEeprom.EepromExactly` | src/Bootloaders/DFU/BootloaderDFU.c:286-381 | EEPROM receives every payload of a length correctly if and only if the range starts on a packet boundary |
| `DfuEeprom.MisalignedByOne` | src/Bootloaders/DFU/BootloaderDFU.c:286-290 | 0x12 0x34 for EEPROM address 1 end up as alignment byte and 0x12 |
| `DfuEeprom.DownloadThenUpload` | src/Bootloaders/DFU/BootloaderDFU.c:356-483 | the packets of the upload after such a download concatenate to the payload |
| `FatDevice.UpdateFAT12ClusterEntry` | src/Bootloaders/MassStorage/Lib/VirtualFAT.c:245-265 | the entry update in the table in place is the one of the value model, spill included |
| `FatDevice.UpdateFAT12ClusterChain` | src/Bootloaders/MassStorage/Lib/VirtualFAT.c:277-292 | the chain loop is the recursive chain of the value model |
| `FatTable.EntrySet` | src/Bootloaders/MassStorage/Lib/VirtualFAT.c:245-265 | a written entry decodes to the value written |
| `FatTable.EntryKept` | src/Bootloaders/MassStorage/Lib/VirtualFAT.c:245-265 | every other entry but the one after an even entry is unchanged |
| `FatTable.EntrySpill` | src/Bootloaders/MassStorage/Lib/VirtualFAT.c:263-263 | writing an even entry overwrites exactly the low four bits of the next |
| `FatTable.SetChainEffect` | src/Bootloaders/MassStorage/Lib/VirtualFAT.c:277-292 | the chain links its clusters in order to the end mark, and changes at most the low bits of one entry outside it |
| `FatTable.ChainsExactly` | src/Bootloaders/MassStorage/Lib/VirtualFAT.c:451-465 | for disjoint files the EEPROM chain is intact, and the flash chain is intact if and only if the EEPROM file does not end on an even cluster just before a flash file of several clusters |
| `FatTable.ReservedEntries` | src/Bootloaders/MassStorage/Lib/VirtualFAT.c:453-457 | the two reserved entries survive both chains |
| `FatTable.DamagedChain` | src/Bootloaders/MassStorage/Lib/VirtualFAT.c:263-263 | a concrete table whose flash chain goes astray |
| `FatDevice.VirtualDisk.ReadWriteFLASHFileBlock` | src/Bootloaders/MassStorage/Lib/VirtualFAT.c:303-355 | reading copies the flash behind a block, writing programs it by erase, fill and commit, blocks outside the file do nothing |
| `FatDevice.VirtualDisk.ReadWriteEEPROMFileBlock` | src/Bootloaders/MassStorage/Lib/VirtualFAT.c:366-392 | the same for the EEPROM file |
| `FatDevice.VirtualDisk.WriteBlock` | src/Bootloaders/MassStorage/Lib/VirtualFAT.c:399-428 | a block write changes memory and directory as the value model says |
| `FatDevice.VirtualDisk.ReadBlock` | src/Bootloaders/MassStorage/Lib/VirtualFAT.c:435-482 | a block read returns the sector of the value model and changes nothing |
| `VirtualFat.FileSectorsExact` | src/Bootloaders/MassStorage/Lib/VirtualFAT.h:44-75 | the sector count of a file of whole sectors is right also for the size one short that the EEPROM macro yields |
| `VirtualFat.InFileMeans` | src/Bootloaders/MassStorage/Lib/VirtualFAT.c:307-313 | the range check, whose upper bound wraps in 16 bits, accepts exactly the blocks of a file that does not wrap |
| `VirtualFatRefinement.WriteRead` | src/Bootloaders/MassStorage/Lib/VirtualFAT.c:399-482 | for every directory a block reads back what was written if and only if it stores, and no other block changes |
| `VirtualFatRefinement.FlashBound` | src/Bootloaders/MassStorage/Lib/VirtualFAT.c:303-355 | for every block number and every directory, wrapping ones included, no write changes flash beyond the file |
| `VirtualFatRefinement.CommittedErased` | src/Bootloaders/MassStorage/Lib/VirtualFAT.c:335-353 | whenever the write loop loads a word, and so at every commit, the page of that word is blank in flash and inside the file |
| `VirtualFatRefinement.RootWriteRead` | src/Bootloaders/MassStorage/Lib/VirtualFAT.c:416-420 | a directory write that keeps the files in place shows only in the directory block |
| `VirtualFatRefinement.DiskIsPlain` | src/Bootloaders/MassStorage/Lib/VirtualFAT.c:303-482 | every sequence of reads and writes that keeps the files in place returns what a plain array of sectors returns |
| `VirtualFatHost.ChainFollowed` | src/Bootloaders/MassStorage/Lib/VirtualFAT.c:277-292 | following an intact chain visits consecutive blocks and ends |
| `VirtualFatHost.Layout` | src/Bootloaders/MassStorage/Lib/VirtualFAT.c:51-72 | the geometry in the boot block places tables, directory and clusters in the blocks that serve them, and the directory block holds the start clusters |
| `VirtualFatHost.TableChains` | src/Bootloaders/MassStorage/Lib/VirtualFAT.c:451-465 | the table that a disk serves has intact chains for files anywhere on the disk, under the same exact condition |
| `VirtualFatHost.FlashFileRead` | src/Bootloaders/MassStorage/Lib/VirtualFAT.c:435-482 | a host that follows directory, table and clusters reads as FLASH.BIN as much of the flash as the directory gives in size, and all of it if and only if that size is right |
| `VirtualFatHost.EepromFileRead` | src/Bootloaders/MassStorage/Lib/VirtualFAT.c:435-482 | the same for EEPROM.BIN, which needs no condition on the chain |
| `VirtualFatHost.InitialDirectory` | src/Bootloaders/MassStorage/Lib/VirtualFAT.c:76-181 | with the directory that the bootloader starts with the host reads FLASH.BIN whole and EEPROM.BIN without its last byte |
| `Endianness.SwapEndianLoads` | src/LUFA/Common/Endianness.h:401-456 | swapping a value loaded little-endian gives the big-endian reading of its bytes |
| `Endianness.SwapEndianTwice` | src/LUFA/Common/Endianness.h:401-456 | swapping twice is the identity |
| `Endianness.SwapEndianN` | src/LUFA/Common/Endianness.h:469-482 | the in-place loop reverses exactly the given number of bytes |
| `ScsiDevice.LogicalUnit.CommandReadWrite10` | src/Bootloaders/MassStorage/Lib/SCSI.c:238-274 | the block loop over the disk in place moves the blocks, lowers the residue and refuses as the value model says |
| `ScsiDevice.LogicalUnit.DecodeSCSICommand` | src/Bootloaders/MassStorage/Lib/SCSI.c:91-148 | every command block changes unit, sense data and run flag as the value model says |
| `Scsi.CommandFields` | src/Bootloaders/MassStorage/Lib/SCSI.c:244-248 | the swapped fields are the big-endian address, cut to 16 bits, and count |
| `Scsi.WriteThenRead` | src/Bootloaders/MassStorage/Lib/SCSI.c:238-274 | over stored blocks WRITE(10) then READ(10) returns the same stream, each lowering the residue by count times 512 |
| `Scsi.RefusedExactly` | src/Bootloaders/MassStorage/Lib/SCSI.c:244-268 | a transfer is accepted if and only if the low half of its address is on the disk, which is the right answer if and only if it is refused or all its blocks are on the disk |
| `Scsi.FarAddressRead` | src/Bootloaders/MassStorage/Lib/SCSI.c:244-259 | a read of block 0x10000 succeeds and returns the boot block |
| `Scsi.OffTheEnd` | src/Bootloaders/MassStorage/Lib/SCSI.c:250-268 | a read of two blocks from the last one on succeeds and returns a block behind the disk |
| `Scsi.DirectoryWritten` | src/Bootloaders/MassStorage/Lib/SCSI.c:261-268 | a write replaces the directory by its block that falls on the directory block, also by coming round in 16 bits, and otherwise leaves it |
| `MassStorageLoop.DecodeRunFlag` | src/Bootloaders/MassStorage/Lib/SCSI.c:116-128 | only a start-stop command changes the run flag, and only an eject clears it |
| `MassStorageLoop.Loop` | src/Bootloaders/MassStorage/BootloaderMassStorage.c:141-145 | the loop ends at the first moment with the run flag false and 255 command-free iterations since the last command, and at no other |
| `MassStorageLoop.EndsAfterEject` | src/Bootloaders/MassStorage/BootloaderMassStorage.c:226-238 | if commands stop after an eject it does end, 255 iterations later |
| `HexReader.Loader.ParseHexLine` | src/Bootloaders/HID/HostLoaderApp/hid_bootloader_cli.c:819-879 | one line changes image, mask, count and extended address in place as the value model says |
| `HexReader.Loader.ReadIntelHex` | src/Bootloaders/HID/HostLoaderApp/hid_bootloader_cli.c:773-807 | a whole file, from a blank image, likewise |
| `HexReading.LineRead` | src/Bootloaders/HID/HostLoaderApp/hid_bootloader_cli.c:819-879 | reading a printed record of any kind, with any checksum byte, has the record's meaning, or refuses it exactly if it runs past the image |
| `HexFiles.TextRead` | src/Bootloaders/HID/HostLoaderApp/hid_bootloader_cli.c:773-879 | a file of sound records is accepted and loads the fold of its records up to the end record |
| `HexFiles.TextRefused` | src/Bootloaders/HID/HostLoaderApp/hid_bootloader_cli.c:773-879 | a file with an unsound record before the end record is refused |
| `HexFiles.LastWriterWins` | src/Bootloaders/HID/HostLoaderApp/hid_bootloader_cli.c:865-875 | for sound files with records of any kinds that fold holds at each address the byte of the last data record covering it under the base in force, marks exactly the covered bytes, counts the data lengths and ends with the end record |
| `HexFiles.FileMeans` | src/Bootloaders/HID/HostLoaderApp/hid_bootloader_cli.c:773-879 | reading the text of a sound file from a blank image succeeds, gives that byte or 0xFF at each address, marks exactly the covered bytes and returns the sum of the data lengths |
| `HexFiles.FileRead` | src/Bootloaders/HID/HostLoaderApp/hid_bootloader_cli.c:773-879 | printing an image in records and reading the text is the identity |
| `HexFiles.ReadersAgree` | src/Bootloaders/HID/HostLoaderApp/hid_bootloader_cli.c:773-879 | on every file that both can hold the streaming parser's flash is the host loader's image if and only if the last page was flushed |
| `HexFiles.ExtendedAgree` | src/Bootloaders/HID/HostLoaderApp/hid_bootloader_cli.c:845-862 | on an extended address record the host loader takes the address the format means, and the streaming parser, whatever its base, does if and only if the two bytes are equal, or the record is addressed to the boot section and the base is that address already |
| `HexFiles.ShortImageLost` | src/Bootloaders/Printer/BootloaderPrinter.c:158-175 | a two-byte file is accepted by both readers and lost by the streaming one |
| `Hid.Bootloader.ReceiveReport` | src/Bootloaders/HID/BootloaderHID.c:134-187 | one report over its packets programs a page or clears the run flag as the value model says |
| `Hid.IhexBytesWithinRange` | src/Bootloaders/HID/HostLoaderApp/hid_bootloader_cli.c:881-893 | the search finds whether a loaded byte lies in a range |
| `Hid.IhexGetData` | src/Bootloaders/HID/HostLoaderApp/hid_bootloader_cli.c:895-913 | the copy gives loaded bytes and 0xFF in the gaps, and writes nothing else |
| `Hid.FillReport` | src/Bootloaders/HID/HostLoaderApp/hid_bootloader_cli.c:153-160 | the report buffer receives the page address and the page data |
| `Hid.ProgramDevice` | src/Bootloaders/HID/HostLoaderApp/hid_bootloader_cli.c:146-174 | the host loop run against the device is the run of the value model, and leaves the image alone |
| `HidTransfer.ReportProgrammed` | src/Bootloaders/HID/BootloaderHID.c:134-187 | a page report on other than 64 KB parts programs the page the host meant with its data, except that the page at 0xFF00 of 128 KB parts is sent blank |
| `HidTransfer.DeliveredExactly` | src/Bootloaders/HID/HostLoaderApp/hid_bootloader_cli.c:146-174 | on those parts no loaded byte lies beyond flash, page 0 and every page with a loaded byte equal the image with 0xFF gaps and other pages are untouched, if and only if the image lies within the part and, on 128 KB parts, is blank from 0xFF00 to 0xFFFF |
| `HidTransfer.DeliversExactly` | src/Bootloaders/HID/HostLoaderApp/hid_bootloader_cli.c:146-174 | on every part all of the image arrives whatever the device held before if and only if it lies within the part and, on 64 KB parts, within the first page, or, on 128 KB parts, is blank from 0xFF00 to 0xFFFF |
| `HidTransfer.BeyondFlashLost` | src/Bootloaders/HID/HostLoaderApp/hid_bootloader_cli.c:146-151 | on 8 KB parts an image with one byte at 0x2000 does not arrive |
| `HidTransfer.StillRunning` | src/Bootloaders/HID/BootloaderHID.c:148-156 | no page report of any image is taken for the start command |
| `HidTransfer.StartReport` | src/Bootloaders/HID/BootloaderHID.c:148-156 | the final report starts the application |
| `HidTransfer.SecondPageLost` | src/Bootloaders/HID/HostLoaderApp/hid_bootloader_cli.c:153-159 | on 64 KB parts an image with one byte at 0x100 does not arrive |
| `HidTransfer.LastPageLost` | src/Bootloaders/HID/HostLoaderApp/hid_bootloader_cli.c:899-904 | on 128 KB parts an image with one byte at 0xFF00 does not arrive |
| `HidFiles.FileDelivered` | src/Bootloaders/HID/HostLoaderApp/hid_bootloader_cli.c:146-174 | a file of sound records of any kinds, read by the loader and programmed over HID, is all in flash whatever the device held before if and only if its addresses lie within the part and outside what the part's size makes unreachable |
| `HidFiles.ImageDelivered` | src/Bootloaders/HID/HostLoaderApp/hid_bootloader_cli.c:146-174 | for a contiguous file of any length, also none, flash then is its image, last page padded and other pages untouched, if and only if the image fits the part and arrives |
| `CdcDevice.Bootloader.FetchNextCommandByte` | src/Bootloaders/CDC/BootloaderCDC.c:358-377 | the loop over packets fetches the next byte of the stream, or zero once the host is gone |
| `CdcDevice.Bootloader.WriteNextResponseByte` | src/Bootloaders/CDC/BootloaderCDC.c:384-403 | writing a byte keeps the packets sent and the bank equal to the response cut into packets |
| `CdcDevice.Bootloader.ReadWriteMemoryBlock` | src/Bootloaders/CDC/BootloaderCDC.c:243-350 | the four block loops, with their high-byte flag, change memory, counter, stream and response as the value model says |
| `CdcDevice.Bootloader.CdcTask` | src/Bootloaders/CDC/BootloaderCDC.c:408-640 | every command changes the state and is answered as the value model says, and the counter stays even |
| `CdcStreams.FetchIsStream` | src/Bootloaders/CDC/BootloaderCDC.c:358-377 | fetched bytes are the concatenation of the packets, however they are cut |
| `CdcStreams.ResponsePackets` | src/Bootloaders/CDC/BootloaderCDC.c:384-403 | a response arrives whole, in full packets and exactly one short packet |
| `CdcStreams.TaskAnswers` | src/Bootloaders/CDC/BootloaderCDC.c:607-640 | every command received is answered by one such transfer, which concatenates to its response |
| `CdcStreams.CounterEven` | src/Bootloaders/CDC/BootloaderCDC.c:243-350 | in every run the address counter stays even |
| `CdcStreams.AddressExactly` | src/Bootloaders/CDC/BootloaderCDC.c:451-459 | a word address from the host selects the right flash cell if and only if the part is not a 128 KB one or the address is in its lowest or highest quarter |
| `CdcStreams.HighAddressMissed` | src/Bootloaders/CDC/BootloaderCDC.c:454-455 | on 128 KB parts byte address 0x8000 selects 0x18000 |
| `CdcProgramming.PagesWritten` | src/Bootloaders/CDC/BootloaderCDC.c:297-349 | page writes one after another, with no address set in between and over any packet split, program the concatenation and are each answered |
| `CdcProgramming.WordsRead` | src/Bootloaders/CDC/BootloaderCDC.c:265-296 | block reads of any even sizes return consecutive flash |
| `CdcProgramming.ProgramThenRead` | src/Bootloaders/CDC/BootloaderCDC.c:243-350 | set address, page writes, set address and block reads leave exactly the data in flash and return it, for every address; it is the address the host meant if and only if the command gets it right |
| `CdcProgramming.EepromThenRead` | src/Bootloaders/CDC/BootloaderCDC.c:243-350 | the same for EEPROM in blocks of any lengths that fit |
| `CdcSessions.TaskServes` | src/Bootloaders/CDC/BootloaderCDC.c:408-640 | a task takes the command at the front of a queue of packets, and the queue goes on behind the packet in which the command ends |
| `CdcSessions.ExecuteAgrees` | src/Bootloaders/CDC/BootloaderCDC.c:418-605 | the effect and response of a command depend on its own bytes only, not on what follows or on how they are cut into packets |
| `CdcSessions.ServePerforms` | src/Bootloaders/CDC/BootloaderCDC.c:408-640 | serving a queue of packets executes exactly the commands that the tasks find in it, in order |
| `CdcSessions.ServedExactly` | src/Bootloaders/CDC/BootloaderCDC.c:635-639 | these are all the commands in the bytes that the host sent if and only if every command ends where a packet ends |
| `CdcSessions.SessionServed` | src/Bootloaders/CDC/BootloaderCDC.c:408-640 | such a queue is served as the commands executed one by one |
| `CdcSessions.ServeRuns` | src/Bootloaders/CDC/BootloaderCDC.c:408-640 | commands in packets of their own may be queued in any number: serving the queue is running them one after another |
| `CdcSessions.SharedPacket` | src/Bootloaders/CDC/BootloaderCDC.c:635-639 | two commands in one packet, the second to exit: the exit is lost |

## Left out

- Registers, watchdog, clocks, LEDs, interrupts, descriptors and the jump to the application; of their effects only the flags remain.
- The USB library and avr-libc: an endpoint is a queue of packets, self-programming is the memory of `Chips`, and loading a buffer word twice overwrites it.
- Detaching: an OUT endpoint that runs dry ends a loop as the code does; the early returns while waiting for an IN endpoint are not modelled.
- Printer streams with gaps, odd record lengths or several bases: `PrinterStreams` and `PrinterGuard` cover them, the application flash they lead to is stated only by the value model.
- DfuDevice.Bootloader.ProcessReadCommand: identification replies outside the two tables, which the code reads beyond their ends, are a fixed byte.
- HexReader.Loader.ParseHexLine: a field with white space, a sign or a 0x prefix, which the C library would accept, and indexes that wrap out of the image are `Unspecified`.
- HexReader.Loader.ReadIntelHex: a file with such a line is `Unspecified` from there on.
- ScsiDevice.LogicalUnit.DecodeSCSICommand: the data of INQUIRY, REQUEST SENSE, READ CAPACITY and MODE SENSE replies is not modelled; their effect on residue and sense data is.
- CdcSessions.TaskServes: the last packet of a queue is not empty; a task that finds only empty packets waits for more, which a queue that is all there cannot show.
- CDC fuse and lock bits are bytes that commands report; writing lock bits clears bits.
- The host loader's options, messages, delays and access to the USB device of an operating system, and the Python loader.
- The remaining demos, drivers and projects of the repository, whose code does not program memory.
