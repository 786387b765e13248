# Bootloaders, joystick and farming script: a verified model

This project models the stateful parts of a console-automation repository and proves
properties of them over all inputs and all runs:

- the four AVR bootloaders shipped with its firmware library. The Printer bootloader
  parses Intel HEX text one character at a time over a lazily written page cache; the DFU
  bootloader is a control-request state machine with a secure mode; the CDC bootloader
  speaks AVR109 with an auto-incrementing address; the HID bootloader takes one page per
  report;
- the repository's own joystick firmware, which turns serial bytes into controller reports;
- two smaller firmware programs: the MIDI tone generator's note table and the LED
  notifier's software PWM;
- the supervision loop of its farming script.

`dafny verify dfyconfig.toml` checks everything.

## How it is organised

| file | contents |
|---|---|
| `Bytes.dfy`, `Endpoints.dfy` | bytes and wrap-around arithmetic; USB endpoint banks and packets |
| `Flash.dfy` | the paged flash all bootloaders drive, `Stored` (what storing an image means) and the life of a page |
| `HexParser.dfy` | the Printer bootloader: step functions and the class that updates in place |
| `HexStreams.dfy`, `HexSession.dfy` | what holds on every character stream, and when a session ends |
| `HexImage.dfy`, `HexRecords.dfy` | the Intel HEX printer; loading a printed image, and records in any order |
| `Dfu.dfy`, `DfuBootloader.dfy` | DFU requests as functions, and the class with its loops |
| `DfuPages.dfy`, `DfuImage.dfy`, `DfuExact.dfy`, `DfuCut.dfy` | the programming loop from any address, programming and upload, when the data comes back, and downloads cut short |
| `DfuEeprom.dfy`, `DfuSecure.dfy`, `DfuBlank.dfy`, `DfuCommands.dfy` | EEPROM, secure mode, erase and blank check, starting the application and the other commands |
| `Cdc.dfy`, `CdcBootloader.dfy`, `CdcCommands.dfy`, `CdcImage.dfy` | AVR109 commands, the class, what each command does, and programming with auto-increment |
| `Hid.dfy` | the HID bootloader |
| `Agreement.dfy` | the four bootloaders leave the same flash |
| `Midi.dfy`, `Joystick.dfy`, `SoftPwm.dfy`, `FarmRoutes.dfy` | the smaller programs |

Each imperative program is a class with the program's variables as fields. Its methods
keep the program's loops and branches and are proved equal to a step function on values;
the theorems are about those functions.

The flash is hardware. `PageErase` sets the page of an address to 0xFF. `PageFill` puts a
word into the page buffer. `PageWrite` programs the buffer into the page and blanks the
buffer. Programming a cell can only clear bits (`Program` is a bitwise AND), so a page that
is not erased first does not end up with the data. `RwwEnable` also blanks the buffer.
Addresses past the end of the chip select nothing. The page size is a parameter: any
multiple of the 32-byte endpoint bank up to 256 bytes (the DFU loop counts the words of a
page in one byte). The boot section starts at a page
boundary and flash addresses have at most 24 bits. `log` is instrumentation: the sequence
of erase and write operations.

All bootloader results for page boundaries are stated with one reference function:
`Stored(chip, memory, start, data)` is `memory` with `data` from page boundary `start` on,
the rest of the last page erased and every other cell as it was. For DFU downloads to other
addresses the reference is `Wrapped`: each page's worth of data starts at its own offset in
the page and runs around the end of it.

Packets sent by the host are parameters. When a request waits for a packet that never
comes, the wait can only end by a detach, and the request returns early as the source does.
Reading from an empty endpoint bank gives 0.

## Where the code and its comments disagree

The model follows the code.

- Printer: an image shorter than one page is erased and never written
  (`BootloaderPrinter.c:214-231`, because the end-of-file record's address 0 is in the same
  page). `LoadImageExact` gives the exact condition and `ShortImageLost` an instance.
- Printer: the guard against writing the bootloader (`BootloaderPrinter.c:300-306`) looks at
  the address of a record, but the page erased next is the one the parser moved to on its
  last flush (`BootloaderPrinter.c:220-228`). That can be a boot page: after a record that
  fills the application section to its end, or after a record without data for the boot
  section that arrives while a page is being filled. The next word for the application
  section then erases it. `BootSectionExact` gives the exact condition, `RestartErasesBoot`
  and `EmptyRecordErasesBoot` an instance of each.
- Printer: a wrong checksum does not keep a record's data out of the flash
  (`BootloaderPrinter.c:353-356`): the words are in the page buffer by then and the page
  stays dirty. `LoadAnyChecksums` states it for every image and every checksum byte.
- DFU: `DFU_REQ_CLRSTATUS` is documented to reset status and state
  (`BootloaderDFU.h:122-123`); the code resets only the status (`BootloaderDFU.c:549`).
  `ClearStatusExact` and `LeavesErrorByAbort` say when the device is idle again, and
  `ClearAfterFailedCheck` is an instance.
- DFU: the comment says a jump start needs a valid application; the test is that the reset
  vector is blank (`BootloaderDFU.c:784-786`). `StopsExactly` and `JumpStartExact` give the
  exact condition and `LoadedApplicationRefused` an instance.
- DFU: skipping filler spends a count on turning a bank over (`BootloaderDFU.c:587-604`), so
  a download to an address off a 32-byte boundary takes the last alignment byte for data.
  For the EEPROM `ProgramEeprom` and `EepromRoundTrip` give the exact condition and
  `UnalignedByteLost` an instance.
- DFU: the flash loop turns its page after a page's worth of words wherever it started
  (`BootloaderDFU.c:358-375`), and an odd start address programs the word below it. Together
  with the skipped filler: a flash range is read back as sent, whatever the data, if and
  only if it starts at a 32-byte boundary and starts at a page boundary or lies in one page.
  `RoundTripExact` proves it, `TwoBytesAtOne` is an instance, `TailAtFront` says where words
  past the end of a page go.
- DFU: the erase loop writes every page back after erasing it (`BootloaderDFU.c:795-803`).
  Words left in the page buffer by a download cut short end up in page 0.
  `EraseThenBlankCheck` gives the exact condition.
- CDC: the high address byte is shifted in a 16-bit int (`BootloaderCDC.c:487`), so byte
  addresses from 0x8000 on are not set as sent; `SetAddressExact` gives the exact condition.
- CDC: the commands for the high and the low byte of a word both fill the low half
  (`BootloaderCDC.c:571-590`); `ByteFillExact` gives the exact condition.
- MIDI: an age that wraps from 255 to 0 makes the search prefer a younger note;
  `ReplacesFirstOldest` gives the exact condition and `WrappedAgeReplacesYounger` a run of
  the firmware's three slots that gets there.
- Joystick: codes 46 to 48 move the left stick's vertical axis (`Joystick.c:251-259`); the
  right stick's vertical axis never moves.

## Model

| member | source | states |
|---|---|---|
| `HexParser.PrinterBootloader.constructor` | firmware/lufa/Bootloaders/Printer/BootloaderPrinter.c:70-106 | a session starts waiting for a line, at page and base 0, with no dirty page |
| `HexParser.PrinterBootloader.FlushPageIfRequired` | firmware/lufa/Bootloaders/Printer/BootloaderPrinter.c:214-231 | a dirty page is written, and the next one begun, exactly when the address has left it |
| `HexParser.PrinterBootloader.ProcessWord` | firmware/lufa/Bootloaders/Printer/BootloaderPrinter.c:316-347 | the new state after a complete word, by record type: erase on first use, fill, advance, flush, or a new base |
| `HexParser.PrinterBootloader.ProcessData` | firmware/lufa/Bootloaders/Printer/BootloaderPrinter.c:296-351 | the new state after a data byte, with the boot section guard and the pairing of bytes |
| `HexParser.PrinterBootloader.ProcessChecksum` | firmware/lufa/Bootloaders/Printer/BootloaderPrinter.c:353-365 | the new state after a checksum byte; only a correct one flushes or ends the session |
| `HexParser.PrinterBootloader.ProcessByte` | firmware/lufa/Bootloaders/Printer/BootloaderPrinter.c:268-370 | the new state after a decoded byte in every parser state |
| `HexParser.PrinterBootloader.ParseIntelHEXByte` | firmware/lufa/Bootloaders/Printer/BootloaderPrinter.c:239-371 | the new state after a character |
| `HexParser.PrinterBootloader.ReceivePacket` | firmware/lufa/Bootloaders/Printer/BootloaderPrinter.c:391-397 | a packet is parsed to its end, even past the record that ends the session |
| `HexStreams.FillerInvisible` | firmware/lufa/Bootloaders/Printer/BootloaderPrinter.c:239-266 | deleting all characters but ':' and upper-case digits from any text gives a state equal up to the three fields reset while no record is open |
| `HexStreams.SameCleanText` | firmware/lufa/Bootloaders/Printer/BootloaderPrinter.c:255-258 | two texts with the same significant characters leave the same flash, log and run flag |
| `HexStreams.PageDiscipline` | firmware/lufa/Bootloaders/Printer/BootloaderPrinter.c:214-335 | every text keeps: each page write directly follows the erase of that page, and a dirty page is the one erased last |
| `HexStreams.PageDisciplineFromPowerUp` | firmware/lufa/Bootloaders/Printer/BootloaderPrinter.c:214-335 | from power-up, on every text, every write event directly follows the erase of its page |
| `HexStreams.RunFollows` | firmware/lufa/Bootloaders/Printer/BootloaderPrinter.c:242-351 | after every text the parser agrees with the bytes spelled since the last ':': fields, running sum, bytes consumed plus bytes left equal the declared count, and some are left while reading data |
| `HexSession.RunLocated` | firmware/lufa/Bootloaders/Printer/BootloaderPrinter.c:242-347 | after every text the base address and the odd data byte are those a reader of the text alone computes from the extended-address records in it |
| `HexSession.SessionEnds` | firmware/lufa/Bootloaders/Printer/BootloaderPrinter.c:242-365 | the bootloader has stopped if and only if some character of the text completed an end-of-file record whose bytes sum to 0 mod 256 (with an application address if it carries data) |
| `HexImage.RunHex` | firmware/lufa/Bootloaders/Printer/BootloaderPrinter.c:255-266 | bytes printed as upper-case digits are decoded to those bytes |
| `HexImage.LoadWord` | firmware/lufa/Bootloaders/Printer/BootloaderPrinter.c:308-336 | reading the word at address n turns "n bytes loaded" into "n + 2 bytes loaded", through erase, buffer and flush |
| `HexImage.RunDataRecord` | firmware/lufa/Bootloaders/Printer/BootloaderPrinter.c:276-359 | a printed data record loads exactly its data, or the part below the boot section, whatever its checksum byte |
| `HexImage.LoadImage` | firmware/lufa/Bootloaders/Printer/BootloaderPrinter.c:198-371 | for every even-length image up to 64KB, cut into records in any way, with any filler anywhere: the session ends and the flash is the old one with the image stored at 0, clipped at the boot section; a single partial page is left erased |
| `HexImage.LoadAnyChecksums` | firmware/lufa/Bootloaders/Printer/BootloaderPrinter.c:353-365 | the same flash for every image and cut with any checksum bytes, right or wrong, in the data records; end-of-file records with a wrong checksum change no cell, log nothing and leave the session running, and the first right one stores the last page and ends it |
| `HexImage.OverrunStops` | firmware/lufa/Bootloaders/Printer/BootloaderPrinter.c:300-306 | a consecutive image longer than the application section fills it exactly, leaves everything above untouched and still ends the session |
| `HexRecords.OnlyLoggedPagesChange` | firmware/lufa/Bootloaders/Printer/BootloaderPrinter.c:214-335 | on every text a flash cell changes only if an erase or write event names its page |
| `HexRecords.RunRecords` | firmware/lufa/Bootloaders/Printer/BootloaderPrinter.c:214-365 | over any list of data records of whole words, or none, at even addresses the parser is at the page a fold over the records computes, and touches no boot page, until a record carries data into the application section while a boot page is at hand |
| `HexRecords.BootSectionExact` | firmware/lufa/Bootloaders/Printer/BootloaderPrinter.c:214-365 | for every list of such records, with right or wrong checksums, and an end-of-file record: no event names a boot page, and the boot section keeps its contents, if and only if no record carries data into the application section while the fold has a boot page at hand; otherwise a boot page is erased |
| `HexRecords.StrikesContinue` | firmware/lufa/Bootloaders/Printer/BootloaderPrinter.c:296-365 | if records without data keep to application addresses, that condition fails if and only if some record carries data into the application section after one that filled it to its end |
| `HexRecords.RestartErasesBoot` | firmware/lufa/Bootloaders/Printer/BootloaderPrinter.c:300-335 | an image that fills the section followed by a word for address 0 erases the first boot page |
| `HexRecords.EmptyRecordErasesBoot` | firmware/lufa/Bootloaders/Printer/BootloaderPrinter.c:214-365 | a word, a record without data for the boot section and another word erase the first boot page |
| `HexImage.LoadImageExact` | firmware/lufa/Bootloaders/Printer/BootloaderPrinter.c:214-231 | the image is in the flash afterwards if and only if it covers a page or is all 0xFF |
| `HexImage.ShortImageLost` | firmware/lufa/Bootloaders/Printer/BootloaderPrinter.c:214-231 | a two-byte image is lost although the session ends normally |
| `DfuBootloader.Bootloader.constructor` | firmware/lufa/Bootloaders/DFU/BootloaderDFU.c:43-93 | the initial values of the bootloader's variables |
| `DfuBootloader.Bootloader.ControlRequest` | firmware/lufa/Bootloaders/DFU/BootloaderDFU.c:250-578 | the new state and the reply packets of every DFU request |
| `DfuBootloader.Bootloader.Dnload` | firmware/lufa/Bootloaders/DFU/BootloaderDFU.c:267-419 | the new state of a download: pending exit, command, data stage, stall and early detach |
| `DfuBootloader.Bootloader.ActOnExit` | firmware/lufa/Bootloaders/DFU/BootloaderDFU.c:270-278 | a pending exit processes the last command again and is then no longer pending |
| `DfuBootloader.Bootloader.ReceiveCommand` | firmware/lufa/Bootloaders/DFU/BootloaderDFU.c:289-301 | the command and up to five parameters are taken from the first packet, the rest of the parameters keep their values |
| `DfuBootloader.Bootloader.ReceiveProgram` | firmware/lufa/Bootloaders/DFU/BootloaderDFU.c:316-411 | the data stage: filler skipped, flash or EEPROM written, start address moved |
| `DfuBootloader.Bootloader.WriteFlash` | firmware/lufa/Bootloaders/DFU/BootloaderDFU.c:325-378 | the flash programming loop over packets, with its page turns and its early return |
| `DfuBootloader.Bootloader.WriteEepromBytes` | firmware/lufa/Bootloaders/DFU/BootloaderDFU.c:386-408 | the EEPROM programming loop over packets |
| `DfuBootloader.Bootloader.Upload` | firmware/lufa/Bootloaders/DFU/BootloaderDFU.c:420-518 | the reply of an upload in 32-byte packets, and the state it leaves |
| `DfuBootloader.Bootloader.UploadFlash` | firmware/lufa/Bootloaders/DFU/BootloaderDFU.c:445-482 | the words read are the flash cells from the start address on |
| `DfuBootloader.Bootloader.UploadEeprom` | firmware/lufa/Bootloaders/DFU/BootloaderDFU.c:487-509 | the bytes read are the EEPROM cells from the start address on |
| `DfuBootloader.Bootloader.DiscardFillerBytes` | firmware/lufa/Bootloaders/DFU/BootloaderDFU.c:585-605 | the endpoint after skipping filler, where turning over a bank costs one count |
| `DfuBootloader.Bootloader.ProcessBootloaderCommand` | firmware/lufa/Bootloaders/DFU/BootloaderDFU.c:611-654 | dispatch of a command, and the rejection of all but information reads and the erase in secure mode |
| `DfuBootloader.Bootloader.LoadStartEndAddresses` | firmware/lufa/Bootloaders/DFU/BootloaderDFU.c:659-671 | both addresses, high byte first |
| `DfuBootloader.Bootloader.ProcessMemProgCommand` | firmware/lufa/Bootloaders/DFU/BootloaderDFU.c:676-701 | the first flash page is erased and a download is due |
| `DfuBootloader.Bootloader.ProcessMemReadCommand` | firmware/lufa/Bootloaders/DFU/BootloaderDFU.c:707-745 | an upload is due, or the flash has been checked |
| `DfuBootloader.Bootloader.CheckBlank` | firmware/lufa/Bootloaders/DFU/BootloaderDFU.c:718-744 | the search loop finds the first programmed cell of the application section, if there is one |
| `DfuBootloader.Bootloader.ProcessWriteCommand` | firmware/lufa/Bootloaders/DFU/BootloaderDFU.c:750-811 | application start or erase; the erase unlocks the device |
| `DfuCommands.StopsExactly` | firmware/lufa/Bootloaders/DFU/BootloaderDFU.c:752-789 | over every request sequence the bootloader has ended if and only if some request processed an unlocked start by jump, with no data left, while the reset vector was blank |
| `DfuCommands.JumpStartExact` | firmware/lufa/Bootloaders/DFU/BootloaderDFU.c:752-789 | a jump command and the empty download after it end the bootloader if and only if there is no application |
| `DfuCommands.LoadedApplicationRefused` | firmware/lufa/Bootloaders/DFU/BootloaderDFU.c:784-786 | an application just programmed at address 0 is not started by a jump |
| `DfuCommands.LeavesErrorByAbort` | firmware/lufa/Bootloaders/DFU/BootloaderDFU.c:519-573 | over every request sequence without a download, an error state is left if and only if there is an abort, and the status is cleared if and only if there is a clear request |
| `DfuCommands.ClearAfterFailedCheck` | firmware/lufa/Bootloaders/DFU/BootloaderDFU.c:544-552 | after a failed blank check and a clear the device reports an OK status in the error state |
| `DfuCommands.InformationExact` | firmware/lufa/Bootloaders/DFU/BootloaderDFU.c:816-859 | locked or not, an information read and an upload return the byte of each table index, written out; any other index is reported as an address error |
| `DfuCommands.UploadExact` | firmware/lufa/Bootloaders/DFU/BootloaderDFU.c:420-518 | an upload without a pending read sends the response byte and keeps the state; a pending one is over afterwards |
| `DfuCommands.LockedRejects` | firmware/lufa/Bootloaders/DFU/BootloaderDFU.c:611-631 | a locked device stalls every command but information reads and the erase, reports a write error and changes nothing else |
| `DfuCommands.StallsExactly` | firmware/lufa/Bootloaders/DFU/BootloaderDFU.c:611-631 | a request stalls if and only if the lock refuses a command it processes, the pending exit included |
| `DfuCommands.LockedNeverExits` | firmware/lufa/Bootloaders/DFU/BootloaderDFU.c:270-278 | over every run a locked device has no exit pending |
| `DfuCommands.IgnoresMeaningless` | firmware/lufa/Bootloaders/DFU/BootloaderDFU.c:634-652 | commands and parameters the bootloader does not know are accepted and change no memory, no address and no status |
| `DfuCommands.SelectPage` | firmware/lufa/Bootloaders/DFU/BootloaderDFU.c:647-651 | the 64KB page command sets the page to its third parameter and nothing else |
| `DfuCommands.ProgramInPage` | firmware/lufa/Bootloaders/DFU/BootloaderDFU.c:647-651 | after it a download to an offset is stored at 65536 times the page plus the offset, on chips over 64KB, and at the offset on others |
| `DfuCommands.ReadFromPage` | firmware/lufa/Bootloaders/DFU/BootloaderDFU.c:443-486 | after it a read command and an upload return the cells from there |
| `DfuCommands.AddressedStart` | firmware/lufa/Bootloaders/DFU/BootloaderDFU.c:757-771 | a start by jump with data to come keeps the address, high byte first, and starts nothing yet |
| `FlashMemory.FlashDevice.EraseApplication` | firmware/lufa/Bootloaders/DFU/BootloaderDFU.c:792-803 | the erase loop over all application pages |
| `FlashMemory.EraseErases` | firmware/lufa/Bootloaders/DFU/BootloaderDFU.c:792-803 | with an empty page buffer the loop leaves every application cell erased and every other cell unchanged |
| `DfuSecure.SecureModeHidesFlash` | firmware/lufa/Bootloaders/DFU/BootloaderDFU.c:250-654 | two locked devices that differ only in application flash give identical replies to every request sequence, and are identical once unlocked |
| `DfuSecure.SecureModeKeepsMemory` | firmware/lufa/Bootloaders/DFU/BootloaderDFU.c:611-631 | as long as a run leaves the device locked, flash and EEPROM are as they were |
| `DfuSecure.StaysUnlocked` | firmware/lufa/Bootloaders/DFU/BootloaderDFU.c:39-43 | no request sequence locks an unlocked device |
| `DfuPages.WriteTurned` | firmware/lufa/Bootloaders/DFU/BootloaderDFU.c:339-378 | from any point of the loop and any address, the words still to come end up turned in their pages, each page written once and the next one erased, in ascending order |
| `DfuPages.WrappedAligned` | firmware/lufa/Bootloaders/DFU/BootloaderDFU.c:325-378 | from a page boundary the loop stores the data as it is |
| `DfuPages.InPlaceExact` | firmware/lufa/Bootloaders/DFU/BootloaderDFU.c:325-378 | all words of a length the loop reads from an even address end up at their addresses if and only if they start at a page boundary or end in the page they start in |
| `DfuPages.TailAtFront` | firmware/lufa/Bootloaders/DFU/BootloaderDFU.c:358-375 | words of up to a page from an even address that run over the end of their page: the tail is at the front of the page and the next page is untouched |
| `DfuImage.ArrivesAsStream` | firmware/lufa/Bootloaders/DFU/BootloaderDFU.c:316-355 | the words the loop reads: from a bank boundary the data, in packets cut between words; off one, whatever the packets, they begin with the last alignment byte |
| `DfuImage.ProgramImage` | firmware/lufa/Bootloaders/DFU/BootloaderDFU.c:280-384 | a download of 2 to 65535 bytes to any address turns what arrives in its pages; at a page boundary it stores exactly the whole words of the data; each page is touched once, in ascending order |
| `DfuImage.ReadBack` | firmware/lufa/Bootloaders/DFU/BootloaderDFU.c:443-486 | a read command and an upload return the named cells, change no memory and leave the device idle at the end address |
| `DfuImage.ProgramThenUpload` | firmware/lufa/Bootloaders/DFU/BootloaderDFU.c:280-513 | download, read command, upload: the host gets the cells as the download left them |
| `DfuExact.RoundTripExact` | firmware/lufa/Bootloaders/DFU/BootloaderDFU.c:280-513 | for every start address and length: whatever the data and its packets, the host gets back the words it sent if and only if the start is at a 32-byte boundary and the range starts at a page boundary or lies in one page |
| `DfuExact.TwoBytesAtOne` | firmware/lufa/Bootloaders/DFU/BootloaderDFU.c:316-378 | of two bytes for address 1 the second is not programmed |
| `DfuCut.CutShort` | firmware/lufa/Bootloaders/DFU/BootloaderDFU.c:342-351 | a flash download cut short is reported so; the pages filled are written, the page at hand is erased and its words stay in the page buffer |
| `DfuCut.EepromCutShort` | firmware/lufa/Bootloaders/DFU/BootloaderDFU.c:391-400 | an EEPROM download cut short has stored the bytes that came |
| `DfuEeprom.ProgramEeprom` | firmware/lufa/Bootloaders/DFU/BootloaderDFU.c:316-408 | an EEPROM download to any address stores the data, shifted by the last alignment byte off a bank boundary, and leaves the flash alone; it stores exactly the data if and only if there are no alignment bytes or the data only repeats the last one |
| `DfuEeprom.EepromRoundTrip` | firmware/lufa/Bootloaders/DFU/BootloaderDFU.c:316-509 | EEPROM download, read command, upload: the host gets back the bytes it sent if and only if that condition holds |
| `DfuEeprom.UnalignedByteLost` | firmware/lufa/Bootloaders/DFU/BootloaderDFU.c:587-604 | a byte for address 1 is lost: its alignment byte is stored instead |
| `DfuBlank.BufferBlankBetweenRequests` | firmware/lufa/Bootloaders/DFU/BootloaderDFU.c:361-383 | over every run without a detach each request starts with an empty page buffer |
| `DfuBlank.BlankCheckExact` | firmware/lufa/Bootloaders/DFU/BootloaderDFU.c:718-744 | the check fails if and only if an application cell is programmed; it keeps the least such address and the next upload sends its low two bytes, low byte first |
| `FlashMemory.EraseWritesBuffer` | firmware/lufa/Bootloaders/DFU/BootloaderDFU.c:792-803 | from any page buffer the erase loop leaves the buffer in page 0, every other application page erased and the boot section unchanged |
| `DfuBlank.EraseThenBlankCheck` | firmware/lufa/Bootloaders/DFU/BootloaderDFU.c:790-810 | the erase is accepted locked or not, unlocks and spares the boot section; the application section is blank, and a check right after succeeds, if and only if the page buffer was blank |
| `DfuBlank.EraseAfterWholeRequests` | firmware/lufa/Bootloaders/DFU/BootloaderDFU.c:718-810 | after every run without a detach an erase blanks the application section and a check succeeds |
| `Cdc.SetAddressExact` | firmware/lufa/Bootloaders/CDC/BootloaderCDC.c:484-488 | the byte address set, for every pair of bytes; it is twice the word address sent if and only if the high byte is below 64 |
| `CdcBootloader.Bootloader.constructor` | firmware/lufa/Bootloaders/CDC/BootloaderCDC.c:51-57 | the session starts at address 0 and running |
| `CdcBootloader.Bootloader.FetchNextCommandByte` | firmware/lufa/Bootloaders/CDC/BootloaderCDC.c:391-410 | the next byte of the concatenated packets, over any packet boundaries, and 0 once the host has gone |
| `CdcBootloader.Bootloader.WriteNextResponseByte` | firmware/lufa/Bootloaders/CDC/BootloaderCDC.c:417-436 | the byte is appended to what has been written, and only full banks are sent |
| `CdcBootloader.Bootloader.ReadFlashBytes` | firmware/lufa/Bootloaders/CDC/BootloaderCDC.c:303-319 | the flash block read loop with its word-wise address |
| `CdcBootloader.Bootloader.ReadEepromBytes` | firmware/lufa/Bootloaders/CDC/BootloaderCDC.c:320-327 | the EEPROM block read loop |
| `CdcBootloader.Bootloader.WriteFlashBytes` | firmware/lufa/Bootloaders/CDC/BootloaderCDC.c:340-359 | the flash block write loop: bytes paired into words, an odd one dropped |
| `CdcBootloader.Bootloader.WriteEepromBytes` | firmware/lufa/Bootloaders/CDC/BootloaderCDC.c:360-367 | the EEPROM block write loop |
| `CdcBootloader.Bootloader.ReadWriteMemoryBlock` | firmware/lufa/Bootloaders/CDC/BootloaderCDC.c:276-383 | a block command: size, memory type, error answer, read or write |
| `CdcBootloader.Bootloader.AccessOnce` | firmware/lufa/Bootloaders/CDC/BootloaderCDC.c:571-638 | the byte, word and page commands and the answer to unknown ones |
| `CdcBootloader.Bootloader.RunCommand` | firmware/lufa/Bootloaders/CDC/BootloaderCDC.c:453-638 | the new state and the response of every AVR109 command |
| `CdcBootloader.Bootloader.CdcTask` | firmware/lufa/Bootloaders/CDC/BootloaderCDC.c:441-673 | the packets sent are the response in full packets ended by a short one |
| `CdcCommands.EraseCommand` | firmware/lufa/Bootloaders/CDC/BootloaderCDC.c:516-529 | the erase answers CR, leaves the old page buffer in page 0 and 0xFF in every other application page; the boot section, address, EEPROM and session are as before |
| `CdcCommands.EraseBlanks` | firmware/lufa/Bootloaders/CDC/BootloaderCDC.c:516-529 | from an empty page buffer the whole application section ends up 0xFF |
| `CdcCommands.SessionStops` | firmware/lufa/Bootloaders/CDC/BootloaderCDC.c:453-459 | over every command sequence the session has ended if and only if one was the exit command |
| `CdcCommands.ReadWordCommand` | firmware/lufa/Bootloaders/CDC/BootloaderCDC.c:602-612 | the word at the address is sent high byte first and nothing changes |
| `CdcCommands.FillCommands` | firmware/lufa/Bootloaders/CDC/BootloaderCDC.c:571-590 | both fill commands put the byte and a zero into the buffer word of the address; only the low one moves on |
| `CdcCommands.ByteFillExact` | firmware/lufa/Bootloaders/CDC/BootloaderCDC.c:571-590 | the two commands for one word leave that word in the buffer if and only if its high byte is 0 |
| `CdcCommands.WritePageCommand` | firmware/lufa/Bootloaders/CDC/BootloaderCDC.c:591-601 | the buffer is programmed into the page of the address and emptied; no other cell changes |
| `CdcCommands.EepromByteCommands` | firmware/lufa/Bootloaders/CDC/BootloaderCDC.c:615-633 | the byte commands write and read the EEPROM cell of the word address and move on |
| `CdcCommands.Identification` | firmware/lufa/Bootloaders/CDC/BootloaderCDC.c:460-505 | the fixed answers, byte by byte |
| `CdcCommands.ChipInquiries` | firmware/lufa/Bootloaders/CDC/BootloaderCDC.c:507-561 | page size, signature, fuses and lock bits are sent in the order of the protocol |
| `CdcCommands.UnknownCommand` | firmware/lufa/Bootloaders/CDC/BootloaderCDC.c:634-638 | every byte that is no command but the escape is answered with a question mark and changes nothing |
| `Endpoints.TransferSent` | firmware/lufa/Bootloaders/CDC/BootloaderCDC.c:640-659 | sending the last bank, and an empty packet if it was full, completes the transfer |
| `Endpoints.TerminatedIsTransfer` | firmware/lufa/Bootloaders/CDC/BootloaderCDC.c:643-659 | the packets concatenate to the response, all but the last are full and the last is short, as section 5.8.3 of the USB 2.0 specification requires |
| `Endpoints.TransferUnique` | firmware/lufa/Bootloaders/CDC/BootloaderCDC.c:643-659 | no other packets with that shape carry the same bytes |
| `CdcImage.AddressAlwaysEven` | firmware/lufa/Bootloaders/CDC/BootloaderCDC.c:484-632 | after every command sequence the address is even |
| `CdcImage.TaskWritePage` | firmware/lufa/Bootloaders/CDC/BootloaderCDC.c:332-382 | a page-sized block write at a page boundary stores the page, whatever the buffer held, and moves on by a page |
| `CdcImage.TaskWritePart` | firmware/lufa/Bootloaders/CDC/BootloaderCDC.c:332-382 | a shorter block is stored from an empty page buffer, without an odd last byte |
| `CdcImage.TaskReadBlock` | firmware/lufa/Bootloaders/CDC/BootloaderCDC.c:295-327 | a block read sends consecutive cells, moves on by whole words and empties the page buffer |
| `CdcImage.WritePages` | firmware/lufa/Bootloaders/CDC/BootloaderCDC.c:332-382 | k such writes store the concatenated image |
| `CdcImage.WriteImage` | firmware/lufa/Bootloaders/CDC/BootloaderCDC.c:276-492 | the same from any state after one set-address |
| `CdcImage.AutoIncrementRoundTrip` | firmware/lufa/Bootloaders/CDC/BootloaderCDC.c:276-492 | setting the address again and block-reading n bytes returns the first n bytes of the image |
| `CdcImage.EepromRoundTrip` | firmware/lufa/Bootloaders/CDC/BootloaderCDC.c:276-492 | set-address, EEPROM block write, set-address, block read: the host gets its bytes back, and no other cell and no flash cell changes |
| `Hid.Bootloader.constructor` | firmware/lufa/Bootloaders/HID/BootloaderHID.c:42-42 | the session starts running |
| `Hid.Bootloader.SetReport` | firmware/lufa/Bootloaders/HID/BootloaderHID.c:142-195 | the new state after a report, from the bytes of its packets |
| `Hid.Bootloader.WritePage` | firmware/lufa/Bootloaders/HID/BootloaderHID.c:171-182 | the loop fills the buffer with the next page of the report |
| `Hid.LastWriterWins` | firmware/lufa/Bootloaders/HID/BootloaderHID.c:142-195 | after any sequence of page reports every cell is that of the last report for its page, or the original; a report goes to low + 256 * high on chips of up to 64KB and to 256 times that on larger ones |
| `Hid.SessionEnds` | firmware/lufa/Bootloaders/HID/BootloaderHID.c:156-163 | over every sequence of reports the session has ended if and only if the address bytes of one were FF FF |
| `Hid.BootSectionUntouched` | firmware/lufa/Bootloaders/HID/BootloaderHID.c:142-195 | no sequence of reports, with any addresses and payloads, changes the boot section |
| `Hid.ReportImage` | firmware/lufa/Bootloaders/HID/BootloaderHID.c:164-190 | reports whose address bytes name the pages of an image in order store the image |
| `Agreement.SameImageSameFlash` | firmware/lufa/Bootloaders/HID/BootloaderHID.c:164-190 | the same whole-page image given to the Printer, DFU, CDC and HID bootloaders leaves the same flash |
| `Midi.ToneGenerator.FindSlot` | firmware/lufa/Projects/MIDIToneGenerator/MIDIToneGenerator.c:105-124 | the search loop returns the first free slot or the replacement candidate, having aged exactly the slots before it |
| `Midi.ToneGenerator.TurnNoteOn` | firmware/lufa/Projects/MIDIToneGenerator/MIDIToneGenerator.c:105-132 | the table after a note-on |
| `Midi.ToneGenerator.TurnNoteOff` | firmware/lufa/Projects/MIDIToneGenerator/MIDIToneGenerator.c:141-148 | the table after a note-off |
| `Midi.ToneGenerator.Receive` | firmware/lufa/Projects/MIDIToneGenerator/MIDIToneGenerator.c:103-153 | only note events of channel 0 change the table |
| `Midi.ReplacesFirstOldest` | firmware/lufa/Projects/MIDIToneGenerator/MIDIToneGenerator.c:117-123 | with all slots sounding the first slot of greatest age is replaced if and only if no slot but the last has age 255, although ages change during the search |
| `Midi.WrappedAgeReplacesYounger` | firmware/lufa/Projects/MIDIToneGenerator/MIDIToneGenerator.c:117-123 | a run from silence with three slots after which a wrapped age makes a younger note go |
| `Midi.TurnOnSounds` | firmware/lufa/Projects/MIDIToneGenerator/MIDIToneGenerator.c:107-132 | a note-on adds one copy of its pitch and removes one other note only if all slots sound |
| `Midi.TurnOffSounds` | firmware/lufa/Projects/MIDIToneGenerator/MIDIToneGenerator.c:141-148 | a note-off removes every copy of its pitch and nothing else |
| `Midi.VoicesPlay` | firmware/lufa/Projects/MIDIToneGenerator/MIDIToneGenerator.c:98-158 | over every run each event changes the multiset of sounding pitches that way, and with all slots sounding the note that goes is that of the chosen slot, the first of the oldest if and only if no slot but the last has age 255 |
| `Midi.AgeCountsPasses` | firmware/lufa/Projects/MIDIToneGenerator/MIDIToneGenerator.c:105-132 | over every run a slot's age is, mod 256, the number of note-ons since it took its note whose search passed it |
| `Midi.ReplacesMostPassed` | firmware/lufa/Projects/MIDIToneGenerator/MIDIToneGenerator.c:105-132 | while no slot has been passed 255 times, a note-on with all slots sounding removes the first note passed most often since its own note-on, and its slot starts again at 0 |
| `Midi.FiveNotes` | firmware/lufa/Projects/MIDIToneGenerator/MIDIToneGenerator.c:105-132 | of five notes on three slots the fourth replaces the first and the fifth the second |
| `Joystick.VirtualController.Init` | firmware/Joystick.c:87-97 | everything released and centered |
| `Joystick.VirtualController.ExecuteCommand` | firmware/Joystick.c:106-268 | the 16-bit button field and the positions after a byte, as the protocol's table says, and the serial answer |
| `Joystick.VirtualController.ReceiveCommand` | firmware/Joystick.c:100-104 | draining the received bytes gives the report of the whole history |
| `Joystick.HeldFromHistory` | firmware/Joystick.c:112-262 | a bit of the button field is set if and only if the last of its codes and 49 was its press code |
| `Joystick.ButtonFromHistory` | firmware/Joystick.c:112-262 | the same for each of the fourteen buttons, with its bit and its two codes written out |
| `Joystick.PositionFromHistory` | firmware/Joystick.c:176-262 | hat and sticks hold the position of the last code that addressed them, codes and positions written out; the right stick's vertical axis stays centered |
| `Joystick.TopBitsClear` | firmware/Joystick.c:112-262 | the two top bits of the button field stay clear |
| `Joystick.SameProjectionsSameReport` | firmware/Joystick.c:106-268 | byte streams that agree on each control separately give equal reports |
| `SoftPwm.Notifier.TimerTick` | firmware/lufa/Projects/LEDNotifier/LEDNotifier.c:88-105 | the counter after an interrupt and which LEDs are lit |
| `SoftPwm.Notifier.ReceiveColour` | firmware/lufa/Projects/LEDNotifier/LEDNotifier.c:122-135 | the duties after a host byte |
| `SoftPwm.StaysInRange` | firmware/lufa/Projects/LEDNotifier/LEDNotifier.c:88-135 | counter and duties stay in range over every run |
| `SoftPwm.DutyExact` | firmware/lufa/Projects/LEDNotifier/LEDNotifier.c:88-135 | after any history, in every 31 ticks without a byte for the channel it is lit for exactly its duty's number of ticks |
| `SoftPwm.LitByLastByte` | firmware/lufa/Projects/LEDNotifier/LEDNotifier.c:88-135 | the number of lit ticks in 31 is the low five bits of the last host byte with bit 5, 6 or 7 set for the channel, or 0 |
| `FarmRoutes.Farm.InitRun` | script/MHRiseAutoFarmPoints.java:379-390 | a run starts with no misses |
| `FarmRoutes.Farm.FarmNode` | script/MHRiseAutoFarmPoints.java:418-430 | a completed node counts once with its duration and clears the misses; a skipped, missing or broken-off one counts nothing |
| `FarmRoutes.Farm.FarmRoute` | script/MHRiseAutoFarmPoints.java:392-410 | the counters match the history after a route; the restart is thrown exactly when a miss brings the misses to the limit, and an exception of a node or of the recovery after a miss is passed on uncounted |
| `FarmRoutes.Farm.FarmPoints` | script/MHRiseAutoFarmPoints.java:324-333 | a run over any routes throws the restart if and only if the misses have reached 3, passes on the first exception of a route before that, and then stops |
| `FarmRoutes.MissesBounded` | script/MHRiseAutoFarmPoints.java:392-410 | within a run the misses never pass 3 |

## Left out

- Printer: extended-address records, records of odd length or at odd addresses are parsed as the code does, but nothing is claimed about the image they load; out-of-sequence data records are covered for the boot section (BootSectionExact), not for the image.
- DFU: what an address past the end of the chip selects; downloads are covered up to the end of the flash, and a range that runs over the end of a 64KB page is not.
- CDC: the lock bits are taken to read back as written, and a second fill of a buffer word replaces the first.
- DFU: requests not addressed to the DFU interface, the LEDs and the watchdog reset itself.
- HID: a host that stops in the middle of a report, on which the firmware waits forever.
- MIDI: waveform synthesis, table increments and the indicator LED.
- Farm script: what a node does, image recognition, clocks and what the recovery action after a miss does; outcomes, exceptions and durations are parameters.
- USB enumeration, descriptors, start-up jump checks and interrupt timing.
- The mass-storage bootloader, the other firmware projects and the other scripts, which would add easy members or rest on code outside the files modelled.
