# Flash, FATX, ATA, list and PLL models of lpcmod_os

This project models the parts of the XBlast OS firmware (lpcmod_os) that change
persistent data or search under tight bounds, and proves what they promise over
whole runs.

* **Flash programming** (`FlashChip`, `FlashLowLevel`, `FlashDriver`,
  `FlashRuns`, `FlashSettings`, `FlashTermination`, `FlashRequests`,
  `FlashMisaligned`, `FlashMisalignedExactly`, `FlashMisalignedEnds`,
  `FlashUpdate`, `FlashWear`, `FlashEngine`). `Flash_executeFlashFSM` takes one small step per
  call: it reads, erases, writes or verifies one byte, widens an erase that the
  chip ignored, and for a settings save re-reads a wider window before each wider
  erase. The chip is a NOR flash with its bus command decoder. An erase clears
  exactly its unit or nothing. Which of the two it does, how long it keeps the
  chip busy, what programming stores and what the other status bits show are
  arbitrary functions of the command number (an `Oracle`), so a statement for
  every oracle is a statement for every such run. The
  driver is given twice: as functions on values (`Step`, `Run`), about which the
  whole-run theorems speak, and as the class `Engine` whose methods update the
  statics and the buffer in place and are proved to make exactly those moves.
* **ATA addressing and transfer** (`AtaAddress`, `AtaDrive`): from block numbers
  through the two-deep command-block registers to the sectors the device picks,
  and the block loop and retries of a multiple-sector write. The device may fail
  any command and any block; which writes get through all the same is exact
  (`Passes`), and on a drive on which all do (`Reliable`) the formatters succeed.
  A command that reaches it while it still expects
  data has no defined effect: the drive is then no longer `orderly`, and its
  contents are arbitrary.
* **FATX** (`Fatx`, `FatxLinks`, `FatxLookup`, `FatxListing`, `FatxFormat`, `FatxReadBack`,
  `FatxExtended`, `FatxExtendedDrive`): partition layout, cluster chains, file load, path lookup,
  directory listing, both formatters, and reading back what was formatted.
* **Circular lists** (`RingList`, include/list.h) and the **PLL search**
  (`FocusPll`, drivers/video/focus.c).

`Arith` holds arithmetic facts and `Types` the types used by several modules.

## Where the code differs from what it says

The model follows the code. These points came out of the proofs.

* The image size macro at drivers/flash/FlashDriver.c:24 has no parentheses, so
  the size test accepts every positive multiple of 256 bytes, not of 256KB
  (`CheckImageSize`).
* drivers/flash/FlashDriver.c:801 means to round up to 4KB and takes a remainder
  instead. The settings offset is the intended one exactly when the BIOS size is
  outside [192KB, 256KB) (`SettingsOffsetExactly`). Inside, saves are refused
  for a size one past a 4KB boundary (`SettingsOffsetFails`) and misaligned for
  every other size. A misaligned save that completes in its first window has the
  settings, as far as they fit the window, at twice the offset
  (`MisalignedSaveMisplaces`). Its erases also strike bytes that it never
  restores, for instance all those in front of the offset
  (`MisalignedSaveLosesFront`). `MisalignedSaveContents` gives the whole flash
  afterwards, `MisalignedSaveKeepsExactly` says when nothing is lost around the
  window, and `MisalignedSaveLoadsExactly` when the settings are loaded again
  all the same. Since each re-read may find a window that needs no erase, such a
  save has conditions of its own for ending and completing
  (`MisalignedEndsExactly`, `MisalignedSucceedsExactly`).
* An update of the OS bank patches the settings into the whole image, so they
  stand at the computed offset even where a save would misplace them
  (`OsUpdateThenLoad`). The bytes of the image at that offset are replaced.
* A save that has to fall back to a chip-wide erase restores 256KB only. It
  conserves the rest of the flash exactly under the condition of
  `SaveConservesExactly`; `SaveLosesByte` shows a byte that goes.
* An erase that looks busy but clears nothing is sent again forever.
  `WriteEndsExactly` says when a job ends, `WriteSucceedsExactly` when it
  completes.
* Mirroring doubles the image, so a target that is not the image size times a
  power of two is overshot (`MirrorsExactly`, `MirrorOvershoots`). For targets
  above 512KB that can run past the 1MB buffer (`MirrorFitsExactly`,
  `MirrorOverflows`).
* A length of 0 is documented as 256 sectors in `BootIdeWriteMultiple`. The loop
  then sends 256 sectors only if the block size divides 256. Beyond 28-bit
  addresses the count register has 16 bits, and the code leaves the upper ones
  0: a length of 256 announces 65536 sectors, and the device goes on waiting
  (`SendsWhatItAnnounces`, `LongRunFallsShort`). The formatter of extended
  partitions issues such writes; `FormatExtended` says for which partitions. The
  choice between 28-bit and 48-bit addresses uses a 32-bit sum that can wrap
  (`MultipleDecodesExactly`, `LastBlockGoesAstray`).
* The formatter of extended partitions and the code that opens them do not
  always agree where cluster 1 is (`LayoutsAgreeExactly`, `LayoutsDisagree`), and
  a chain map of a multiple of 256 sectors gets a wrong entry (`ReservesExactly`,
  `OneGigabyteReservesMore`); with 2-byte entries the root directory's own entry
  is then no end marker (`FullRunEntries`). Layout and map together
  decide what a formatted partition looks like when it is opened
  (`ExtendedReadsBackExactly`).
* `FATXRawRead` from an address inside a sector returns the bytes at the start of
  that sector first (`RawRead`). Its callers use sector addresses.
* The product of the PLL search overflows its 32 bits (`ProductOverflows`). A
  wrapped product is negative and the true one above the range, so the search is
  not misled (`OverflowIsOutOfRange`).
* `FATXFormatDriveE` goes on after a failed header write; only the flag `clean`
  of the model tells.

## Model

| member | source | states |
|---|---|---|
| FlashLowLevel.LowLevel.DeviceIsBusy | drivers/flash/FlashLowLevel.c:129-142 | the two statics and one bus read make exactly one toggle-bit poll |
| FlashLowLevel.PollSound | drivers/flash/FlashLowLevel.c:129-142 | a not-busy verdict is never wrong: the chip is idle and polling restarts; a poll disturbs no cell |
| FlashLowLevel.PollProgress | drivers/flash/FlashLowLevel.c:129-142 | a busy verdict uses up one busy read of the chip, or is the single extra one that an idle chip still costs |
| FlashLowLevel.LowLevel.WriteByte | drivers/flash/FlashLowLevel.c:266-272 | four bus cycles through the chip's decoder amount to one program command at that address; a busy chip drops all four |
| FlashLowLevel.LowLevel.CommonEraseSequence | drivers/flash/FlashLowLevel.c:335-343 | the unlock cycles leave the decoder waiting for the erase opcode |
| FlashLowLevel.LowLevel.InitiateErase | drivers/flash/FlashLowLevel.c:274-333 | for each method the six cycles amount to exactly one erase of that kind |
| FlashDriver.Step | drivers/flash/FlashDriver.c:73-279 | one call of the state machine never leaves the buffer or the chip, in any phase and for any chip answer |
| FlashRuns.StepForms | drivers/flash/FlashDriver.c:73-279 | every call is either a poll that changes no cell and no phase, or the action of the phase on a chip that is really idle |
| FlashRuns.PollingIsSound | drivers/flash/FlashDriver.c:104-250 | over whole runs, no data read and no command ever hits a busy chip, and a not-busy verdict means the chip is idle |
| FlashRuns.EraseKeepsWritable | drivers/flash/FlashDriver.c:112-126 | bytes that can be programmed stay so under any later erase, wherever it strikes |
| FlashRuns.ErasePhase | drivers/flash/FlashDriver.c:104-195 | an erase step keeps every byte passed so far programmable to its buffer value; the phase is left only when all are |
| FlashRuns.WritePhase | drivers/flash/FlashDriver.c:197-216 | a write step keeps the rest programmable and, if programming is ideal, the written part equal to the buffer |
| FlashRuns.VerifyPhase | drivers/flash/FlashDriver.c:218-241 | the verify pass completes only over equal bytes, and fails only if programming was not ideal |
| FlashRuns.BiosWriteCorrect | drivers/flash/FlashDriver.c:81-241 | for every chip behaviour and every number of calls, a BIOS job that reports completion has its image in the flash |
| FlashRuns.BiosVerifyNeverFails | drivers/flash/FlashDriver.c:218-241 | on a chip that programs ideally the verify pass never reports a mismatch |
| FlashRuns.BiosOnlyClearsBits | drivers/flash/FlashDriver.c:197-216 | no program command of a BIOS job ever needs a 0 bit to become 1 |
| FlashRuns.BiosSparesOthers | drivers/flash/FlashDriver.c:104-241 | at every point of a BIOS job that has not come to a chip-wide erase, every byte whose erase unit holds no byte of the job's range is as it was |
| FlashSettings.WindowNests | drivers/flash/FlashDriver.c:711-720 | realigning a window for a wider erase gives the wider window around the settings, inside the 256KB image, containing the narrower one |
| FlashSettings.InjectImagesWanted | drivers/flash/FlashDriver.c:820-831 | patching the buffer at the offset modulo the window size patches the image at the offset itself, for every window |
| FlashSettings.SealedExactly | drivers/flash/FlashDriver.c:813-831 | sealing changes the four CRC bytes and nothing else, and they become the CRC of all others |
| FlashSettings.EraseHitsWindow | drivers/flash/FlashDriver.c:177-195 | an erase sent for any address of the window clears that window and nothing outside (a chip-wide one everything), or nothing |
| FlashSettings.StepSave | drivers/flash/FlashDriver.c:104-270 | every call keeps the invariant of a save across reading, patching, erasing, widening, re-reading, writing and verifying |
| FlashSettings.SaveConservesImage | drivers/flash/FlashDriver.c:104-270 | whatever the chip does and however often the window is widened, a completed save leaves the first 256KB as they were with only the settings and their CRC replaced; beyond them nothing has changed if and only if it did not come to a chip-wide erase or all was erased there before |
| FlashSettings.SaveWritesSettings | drivers/flash/FlashDriver.c:104-270 | byte by byte after a completed save: the settings stand at their offset as they were, followed by the CRC of them, and every other byte of the first 256KB is the old one |
| FlashSettings.SaveConservesExactly | drivers/flash/FlashDriver.c:130-175 | on a chip whose erase methods always or never clear, that a completed save changes nothing but the settings is decided before it starts: if and only if it can do without a chip-wide erase or everything beyond 256KB is erased |
| FlashSettings.SaveLosesByte | drivers/flash/FlashDriver.c:130-175 | on a chip that takes chip-wide erases only, a save that needs an erase loses every byte beyond 256KB |
| FlashSettings.SaveOnlyClearsBits | drivers/flash/FlashDriver.c:197-216 | no program command of a save ever needs a 0 bit to become 1 |
| FlashTermination.StepDecreases | drivers/flash/FlashDriver.c:73-279 | every call lowers a lexicographic measure: erase method, phase, bytes left, tries left, busy time, polls until an idle chip is seen idle |
| FlashTermination.JobEnds | drivers/flash/FlashDriver.c:73-279 | every started job, read or write, comes to rest on a chip whose erases clear their unit or are ignored |
| FlashTermination.WriteEndsExactly | drivers/flash/FlashDriver.c:128-195 | a write job ends if and only if it needs no erase, or the first erase method that the chip does not ignore clears its unit, or the chip ignores them all |
| FlashTermination.VainRun | drivers/flash/FlashDriver.c:104-195 | for any busy times, a write job that needs an erase never completes and changes nothing on a chip that never clears a unit |
| FlashTermination.WriteSucceedsExactly | drivers/flash/FlashDriver.c:104-241 | on a chip that programs ideally a write job completes if and only if it needs no erase or the first method that is not ignored clears its unit |
| FlashWear.CanWriteExactly | drivers/flash/FlashDriver.c:833-842 | the test holds if and only if clearing bits can turn the byte into the wanted one |
| FlashWear.CommandsAreNeeded | drivers/flash/FlashDriver.c:104-241 | from every state, a call sends at most one command: an erase only for a byte that cannot be programmed in place, a program command only for a byte that differs; no other call changes a cell |
| FlashWear.FailsForCause | drivers/flash/FlashDriver.c:128-241 | from every state, a job fails only with the erase error, after a chip-wide erase was ignored for a byte that needs one, or with the verify error at a byte that differs |
| FlashWear.SameImageIsLeft | drivers/flash/FlashDriver.c:104-241 | an image that the flash already holds is not written again: the job completes and not one command reaches the chip |
| FlashRequests.SettingsOffsetExactly | drivers/flash/FlashDriver.c:758-811 | the computed settings location is the one rounded up to 4KB, as the code means it, if and only if the BIOS size is outside [192KB, 256KB); inside it is below 4KB, and none at all for sizes one past a 4KB boundary |
| FlashRequests.LocatedExactly | drivers/flash/FlashDriver.c:758-811 | there is a location only for header version 1 or 2 with the program name and the lowest option bit set; below 192KB of BIOS it is then 192KB |
| FlashRequests.SettingsOffsetFails | drivers/flash/FlashDriver.c:801 | a BIOS of 192KB and one byte: the settings belong to 196KB and no place is found |
| FlashRequests.MirrorsToLeast | drivers/flash/FlashDriver.c:640-645 | mirroring ends at the least size times a power of two that reaches the target |
| FlashRequests.MirrorsExactly | drivers/flash/FlashDriver.c:640-645 | it ends at the target itself if and only if that is the size times a power of two |
| FlashRequests.MirrorFitsExactly | drivers/flash/FlashDriver.c:616-646 | the mirrored image fits the 1MB buffer if and only if some doubling of its size lies between the target and 1MB: always up to a target of 512KB, for 1MB only if that is the size times a power of two |
| FlashRequests.MirroredAt | drivers/flash/FlashDriver.c:640-645 | byte i of the mirrored buffer is image byte i modulo the image size |
| FlashRequests.MirrorOvershoots | drivers/flash/FlashDriver.c:616-646 | a 256KB image for a 384KB chip becomes 512KB |
| FlashRequests.ReadCorrect | drivers/flash/FlashDriver.c:243-270 | every read job ends, with exactly the requested range in the buffer and the flash untouched |
| FlashRequests.SaveRequestStarts | drivers/flash/FlashDriver.c:528-567 | what an accepted save request starts: a save at the aligned offset, one at a misaligned offset, or a content error |
| FlashRequests.SaveThenLoad | drivers/flash/FlashDriver.c:424-491 | after a completed save the read request ends, and loading yields the settings of before the save, equal in all but the CRC bytes, which are the CRC of the rest, or nothing if they are of another version; the CRC is uninterpreted |
| FlashRequests.RequestLoads | drivers/flash/FlashDriver.c:424-491 | from any contents: the read request ends and loading yields the settings that the chip holds if they are accepted, and nothing otherwise |
| FlashRequests.HeldExactly | drivers/flash/FlashDriver.c:456-491 | in terms of the flash bytes: there are settings to load if and only if the identifier says where, the first byte is 1 and the last four are the CRC of the others, and they are then those very bytes |
| FlashRequests.LoadedExactly | drivers/flash/FlashDriver.c:456-491 | the same of the buffer, for any way it was filled |
| FlashRequests.CorruptLoadsNothing | drivers/flash/FlashDriver.c:424-491 | settings in the flash with any other CRC field are not loaded after a read request |
| FlashMisaligned.MisalignedSaveMisplaces | drivers/flash/FlashDriver.c:801-831 | for every chip, a misaligned save that completes in its first window leaves old bytes at the offset and has the settings, as far as they fit the window, at twice the offset; they are found at the offset if and only if they happen to equal what is left there |
| FlashMisalignedExactly.MisalignedSaveContents | drivers/flash/FlashDriver.c:104-270 | on a chip whose erase methods always or never clear, the erase method a completed misaligned save ends with is decided before it starts, and so is every byte of the flash: the window as targeted, around it the old contents less exactly the bytes that an erase for the window strikes |
| FlashMisalignedExactly.MisalignedSaveKeepsExactly | drivers/flash/FlashDriver.c:177-195 | the bytes around the window are kept if and only if every byte that such an erase strikes was erased before |
| FlashMisalignedExactly.MisalignedSaveLosesFront | drivers/flash/FlashDriver.c:177-195 | if the first erase unit needs an erase and takes it, every byte in front of the offset is lost |
| FlashMisalignedExactly.MisalignedSaveFoundExactly | drivers/flash/FlashDriver.c:104-270 | a completed misaligned save has the settings at the offset if and only if it needed an erase that the narrowest method never does, so that the window was realigned, or by that coincidence |
| FlashMisalignedExactly.IdentifierStays | drivers/flash/FlashDriver.c:722-737 | the identifier that tells the load where to look survives a misaligned save, whatever the window |
| FlashMisalignedExactly.MisalignedSaveLoadsExactly | drivers/flash/FlashDriver.c:424-491 | after a completed misaligned save the chip holds the saved settings for the load if and only if they are of the current version and found at the offset in that sense |
| FlashMisalignedEnds.MisalignedEndsExactly | drivers/flash/FlashDriver.c:104-241 | a misaligned save ends if and only if, widening from one ignored method to the next, it does not come to a window that needs an erase which never takes |
| FlashMisalignedEnds.MisalignedSucceedsExactly | drivers/flash/FlashDriver.c:104-241 | on a chip that programs ideally it completes if and only if it comes to a window that needs no erase, or whose method clears |
| FlashUpdate.ValidateOsImage | drivers/flash/FlashDriver.c:648-661 | the size error is the verdict on exactly the images that do not have 256KB |
| FlashUpdate.ValidatesExactly | drivers/flash/FlashDriver.c:648-709 | the other four verdicts by exact conditions on the last 63 bytes: no remark for the name, header version 2 and the digest of the first BIOS-size bytes, a downgrade warning for version 1 with the digest of the first 252KB |
| FlashUpdate.BufferOffset | drivers/flash/FlashDriver.c:739-756 | the offset taken from the buffer is the one that the image in it will have in flash, none for other sizes |
| FlashUpdate.InjectedIsOsJob | drivers/flash/FlashDriver.c:391-410 | patching an accepted image makes a job that writes it with only the settings replaced, by those held before and their CRC, or unchanged if it says no place |
| FlashUpdate.OsUpdateContents | drivers/flash/FlashDriver.c:391-410 | byte by byte after a completed OS update at any offset: the image, but for the settings held before it and their CRC |
| FlashUpdate.OsUpdateThenLoad | drivers/flash/FlashDriver.c:391-454 | after a completed OS update the read request ends and loads the settings held before it, equal in all but the CRC bytes, or nothing if they are of another version |
| FlashEngine.CheckImageSize | drivers/flash/FlashDriver.c:602-614 | a size is accepted if and only if it is a positive multiple of 256 up to the chip size |
| FlashEngine.MirrorOverflows | drivers/flash/FlashDriver.c:616-646 | a 384KB image for a 1MB chip is accepted and mirrored past the buffer |
| FlashEngine.BankHoldsImage | drivers/flash/FlashDriver.c:569-646 | once the job completes, byte a of the bank, which has 256KB, 512KB or the whole chip behind the offset, is byte (a - offset) modulo the size of the image, for each of the seven banks |
| FlashEngine.Engine.constructor | drivers/flash/FlashDriver.c:66-71 | the machine starts idle on the given chip |
| FlashEngine.Engine.ExecuteFsm | drivers/flash/FlashDriver.c:73-279 | the in-place call changes statics, buffer and chip exactly as one step of the machine on values |
| FlashEngine.Engine.EraseStep | drivers/flash/FlashDriver.c:112-195 | the in-place erase phase is the erase action on values: advance, erase, widen, re-read or fail |
| FlashEngine.Engine.TryWiderErase | drivers/flash/FlashDriver.c:130-175 | an ignored erase is widened one step, re-reads for a save, or ends the job after a chip-wide erase |
| FlashEngine.Engine.EvaluateReadBackRange | drivers/flash/FlashDriver.c:711-720 | start and size become the window of the current erase method |
| FlashEngine.Engine.WriteStep | drivers/flash/FlashDriver.c:197-216 | the in-place write phase is the write action on values |
| FlashEngine.Engine.VerifyStep | drivers/flash/FlashDriver.c:218-241 | the in-place verify phase is the verify action on values |
| FlashEngine.Engine.ReadStep | drivers/flash/FlashDriver.c:243-270 | the in-place read phase is the read action on values, including the settings patch at its end |
| FlashEngine.Engine.BiosIdentifierFromFlash | drivers/flash/FlashDriver.c:722-737 | reads the 63 identifier bytes at the end of the 256KB image |
| FlashEngine.Engine.InjectSettings | drivers/flash/FlashDriver.c:820-831 | the settings keep all but their CRC bytes, which become the CRC of the rest, and are copied into the buffer at the offset modulo the window size, and nowhere else |
| FlashEngine.Engine.FreeFsm | drivers/flash/FlashDriver.c:281-290 | back to idle, with the erase statics and the buffer contents kept |
| FlashEngine.Engine.SaveSettings | drivers/flash/FlashDriver.c:528-567 | refused without effect while a job runs; otherwise the whole new state, for a known device, an unknown one and one that an Xecuter3 hides |
| FlashEngine.Engine.ReadSettingsRequest | drivers/flash/FlashDriver.c:424-454 | the same for the read request |
| FlashEngine.Engine.LoadSettings | drivers/flash/FlashDriver.c:456-491 | yields the buffer's settings if and only if a settings read completed, the first byte is 1 and the last four are the CRC of the others |
| FlashEngine.Engine.RunToEnd | drivers/flash/FlashDriver.c:503-519 | calling the machine until it rests terminates, in a state of its run |
| FlashEngine.Engine.BootReadSettings | drivers/flash/FlashDriver.c:493-526 | from an idle machine: ends idle with the flash untouched, and the settings become those the chip holds if they are accepted, else the defaults; from a running job: waits for it and loads only what that job read |
| FlashEngine.Engine.MirrorImage | drivers/flash/FlashDriver.c:616-646 | the in-place doubling leaves the mirrored image in the buffer |
| FlashEngine.Engine.StartWriteBios | drivers/flash/FlashDriver.c:569-600 | refused without effect while a job runs; an accepted image is mirrored to at least 256KB, 512KB or the chip size by bank, and the job is ready for the write theorems if it fits the chip |
| FlashEngine.Engine.UpdateOs | drivers/flash/FlashDriver.c:391-410 | a rejected image or a refused job leaves only an error code; an accepted image becomes a job, at any offset where it fits, with the settings held before in it if 256KB are written, and as it is otherwise |
| AtaAddress.TaskFilePort.Issue | drivers/ide/BootIde.c:154-199 | the nine register writes leave the extension bytes in the previous and the low bytes in the current registers |
| AtaAddress.DecodesChs | drivers/ide/BootIde.c:1195-1230 | cylinder, head and sector decode to the block less the cylinders beyond the 16-bit register |
| AtaAddress.SectorDecodesExactly | drivers/ide/BootIde.c:1195-1230 | the registers address exactly the requested block, whatever they held, if and only if the block is expressible: always with LBA, below 65536 cylinders with CHS |
| AtaAddress.SelectsDrive | drivers/ide/BootIde.c:1195-1230 | every command selects the drive that was meant |
| AtaAddress.BlocksNeverAlias | drivers/ide/BootIde.c:1312-1346 | two different expressible blocks never reach the same sector |
| AtaAddress.MultipleDecodesExactly | drivers/ide/BootIde.c:1426-1462 | a multiple-sector write addresses its start if and only if start plus length stays below 2^32; it announces 256 sectors for a 28-bit and 65536 for a 48-bit command when the low byte of the length is 0, else that byte |
| AtaAddress.LastBlockGoesAstray | drivers/ide/BootIde.c:1426-1462 | a one-sector write to block 2^32 - 1 goes to block 2^28 - 1 |
| AtaDrive.SendsWhatItAnnounces | drivers/ide/BootIde.c:1394-1476 | up to 256 sectors, the block loop sends what the count registers announce if and only if the length is neither 0 nor 256, or the command is a 28-bit one and, for 0, the block size divides 256 |
| AtaDrive.LongRunFallsShort | drivers/ide/BootIde.c:1426-1476 | at the first 48-bit start a write of 256 sectors sends 256 while the device expects 65536 |
| AtaDrive.Drive.ReadSector | drivers/ide/BootIde.c:1195-1272 | a read succeeds if and only if its command is taken and the sector is on the disk; it then returns the requested sector, or the requested part of it, and changes nothing on the disk |
| AtaDrive.Drive.WriteSector | drivers/ide/BootIde.c:1283-1374 | for a sector on the disk, success if and only if the write gets through within its tries; it then replaces exactly that sector; failure changes no other one |
| AtaDrive.Drive.SendBlocks | drivers/ide/BootIde.c:1469-1476 | full blocks and the last partial one arrive in order; after an error nothing outside the range has changed |
| AtaDrive.Drive.WriteMultiple | drivers/ide/BootIde.c:1394-1502 | for a range on the disk, success if and only if the write gets through within its tries; it then replaces exactly the addressed run by the sent sectors and leaves the device waiting for what was announced beyond them; failure touches nothing outside the run |
| AtaDrive.FewFailuresPass | drivers/ide/BootIde.c:1469-1502 | a write whose commands are taken gets through if fewer of its data blocks fail than it has tries |
| AtaDrive.FaultlessIsReliable | drivers/ide/BootIde.c:1283-1502 | on a drive without faults every write gets through |
| Fatx.RawRead | fs/fatx/BootFATX.c:867-906 | the sector loop gives the bytes at that address, each in its place, except that from an address inside a sector the first ones are those at the start of the sector |
| Fatx.LoadCluster | fs/fatx/BootFATX.c:848-864 | the 32 sectors of that cluster |
| Fatx.Open | fs/fatx/BootFATX.c:313-418 | nothing without the magic number; else the layout with the whole chain map read |
| Fatx.OpenedIsMounted | fs/fatx/BootFATX.c:366-418 | every partition that opens has a chain map with an entry for each of its clusters |
| Fatx.OpenedExactly | fs/fatx/BootFATX.c:313-418 | a partition opens if and only if it begins with the four letters of the magic number; cluster count, entry width, map size and every byte of the map in terms of the disk |
| Fatx.ChainIsAcyclic | fs/fatx/BootFATX.c:792-846 | a chain that ends visits no cluster twice |
| Fatx.ChainIsUnique | fs/fatx/BootFATX.c:792-846 | the chain map determines the chain from a cluster |
| FatxLinks.NextExactly | fs/fatx/BootFATX.c:792-846 | from the bytes of an entry: the next cluster is the entry itself, -1 for the two end markers of its width |
| FatxLinks.ChainExactly | fs/fatx/BootFATX.c:792-846 | clusters are the chain from the first of them if and only if the bytes of the map link them in this order, the last one to an end marker |
| FatxLinks.LinkUpIsChain | fs/fatx/BootFATX.c:792-846 | any distinct clusters, linked in any order by writing one entry after the other, are that chain |
| Fatx.LoadFromDisk | fs/fatx/BootFATX.c:549-589 | the buffer gets the first min(file size, chain length) bytes of the chain, each from its sector of the cluster of that place in the chain, and is untouched behind them; that many are reported; success if and only if the chain is long enough |
| FatxLookup.HitIsFirstMatch | fs/fatx/BootFATX.c:142-214 | a search hits an entry if and only if it is the first live match with nothing in front that stops the search |
| FatxLookup.MatchesExactly | fs/fatx/BootFATX.c:142-214 | an entry matches a name if and only if its bytes, up to the stored length or the first NUL, are those letters in either case |
| FatxLookup.SearchDecides | fs/fatx/BootFATX.c:623-788 | by the first bytes of the slots: the first one that is neither deleted nor another name decides the search: 0 and 0xFF end it, a proper length with the name hits, another length stops a strict one |
| FatxLookup.SearchChain | fs/fatx/BootFATX.c:623-788 | searching cluster by cluster is searching the directory's slots as one sequence; what lies behind the slot that ends the search does not matter, not even an endless chain |
| FatxLookup.SearchIsUnique | fs/fatx/BootFATX.c:623-788 | every part of a chain that is long enough for a search gives the same outcome and entry |
| FatxLookup.FoundDirExactly | fs/fatx/BootFATX.c:142-214 | the first slot not passed over decides the answer: the directory's cluster, -1 for a file or the end marker, 0 when the chain runs out |
| FatxLookup.FindDir | fs/fatx/BootFATX.c:142-214 | the loops over clusters and entries give that answer |
| FatxLookup.FindFile | fs/fatx/BootFATX.c:623-788 | the recursion on shorter paths ends, also when directories form a cycle, with the lookup on values |
| FatxLookup.LookupRefinesTree | fs/fatx/BootFATX.c:623-788 | a path is found, with that cluster and size, if and only if its names lead through first live matches that are directories to one that is a file |
| FatxLookup.Normalize | fs/fatx/BootFATX.c:591-621 | backslashes become slashes in place, and leading slashes are skipped |
| FatxListing.SwapRemovesInversion | fs/fatx/BootFATX.c:125-136 | swapping neighbours that are out of order removes exactly one inversion |
| FatxListing.Pass | fs/fatx/BootFATX.c:125-136 | a pass permutes the names and removes as many inversions as it makes swaps; none means that neighbours are in order |
| FatxListing.SortNames | fs/fatx/BootFATX.c:119-137 | the passes end with the names permuted and sorted, for any total preorder |
| FatxListing.Collect | fs/fatx/BootFATX.c:65-114 | the live names in front of the end marker, in directory order, at most the limit; what lies behind the end marker or the last name wanted does not matter, not even an endless chain |
| FatxListing.ListingExactly | fs/fatx/BootFATX.c:65-114 | by the first bytes of the slots: each name of proper length in front of the end marker is listed behind the prefix, at the place that the names before it leave, and there are no others |
| FatxListing.ListDir | fs/fatx/BootFATX.c:54-140 | exactly those names, permuted into sorted order, and nothing behind the limit touched |
| FatxFormat.SetBrfr | fs/fatx/BootFATX.c:939-959 | without an error sectors 1 to 1023 are cleared and sector 3 is signed; others never change; no error on a reliable drive |
| FatxFormat.WriteHeader | fs/fatx/BootFATX.c:1231-1248 | without an error the boot block is eight erased sectors with the header in the first; other sectors never change; no error on a reliable drive |
| FatxFormat.HeaderFields | fs/fatx/BootFATX.c:1207-1248 | magic number, volume, sectors per cluster and number of maps at their places in the header |
| FatxFormat.WriteTable | fs/fatx/BootFATX.c:1252-1272 | the runs of 256 sectors and the first 144 cover the chain map, with success on a reliable drive; only clusters 0 to 6 are taken |
| FatxFormat.WriteDirectories | fs/fatx/BootFATX.c:1280-1323 | the first six clusters hold the directories as wanted, with success on a reliable drive |
| FatxFormat.FormatDriveE | fs/fatx/BootFATX.c:1207-1327 | for every earlier contents, a format without errors leaves all 2680 sectors as wanted, and on a reliable drive there are none; outside them only the boot record of a drive that was not an Xbox one changes, and the device is ready for the next command |
| FatxReadBack.PutThenRead | fs/fatx/BootFATX.c:916-937 | an entry written into any slot reads back as a live, empty directory with that name and cluster, for every name |
| FatxReadBack.PutKeepsOthers | fs/fatx/BootFATX.c:916-937 | and leaves the other slots alone |
| FatxReadBack.EntryFromBytes | fs/fatx/BootFATX.h:132-144 | each of the 256 slots of a cluster is read from its own 64 bytes: length, attributes, name, first cluster and size |
| FatxReadBack.OpensAsVolume | fs/fatx/BootFATX.c:366-418 | the opener finds the formatter's chain map and cluster 1 where the formatter put them |
| FatxReadBack.FormattedTable | fs/fatx/BootFATX.c:1252-1272 | entries 0 to 6 of the map are reserved, every other one is free |
| FatxReadBack.FormatThenReadBack | fs/fatx/BootFATX.c:1207-1327 | after a format the partition opens, clusters from 7 on are free, and for any name in any formatted directory the search finds exactly TDATA/FFFE0000, UDATA/Music and CACHE at clusters 2/3, 4/5 and 6 |
| FatxExtended.ComputeMapSectors | fs/fatx/BootFATX.c:1344-1359 | the rounding loop gives the closed form for every partition size |
| FatxExtended.LayoutsAgreeExactly | fs/fatx/BootFATX.c:1344-1359 | formatter and opener agree on cluster 1 if and only if the partition is below 256GB, both choose the same entry width, and the map does not end in the first 512 bytes of a 4KB block |
| FatxExtended.LayoutsDisagree | fs/fatx/BootFATX.c:1344-1359 | a partition of 2096768 sectors: entries of 2 bytes for the formatter, of 4 for the opener |
| FatxExtended.WidthsDifferExactly | fs/fatx/BootFATX.c:366-380 | formatter and opener choose different entry widths for exactly 32 sizes |
| FatxExtended.RunsTile | fs/fatx/BootFATX.c:1394-1461 | the full runs and the leading partial one cover every sector of the map exactly once and nothing else |
| FatxExtended.WriteMap | fs/fatx/BootFATX.c:1394-1461 | if it reports success, the device is ready and the whole map is as described if and only if no full run takes a 48-bit command, and on a reliable drive it then does; while the device is in order, sectors outside the map never change |
| FatxExtended.ReservesExactly | fs/fatx/BootFATX.c:1394-1461 | the written map reserves clusters 0 and 1 and no others if and only if its size is not a multiple of 256 sectors |
| FatxExtended.ReservedMarkers | fs/fatx/BootFATX.c:1394-1461 | such a map has the marker of the map for cluster 0, an end marker for cluster 1 and 0 for every other cluster |
| FatxExtended.FullRunEntries | fs/fatx/BootFATX.c:1394-1461 | the first three entries of a map of full runs: a hole in the first, for 2-byte entries no end marker in the second, a surplus third |
| FatxExtended.OneGigabyteReservesMore | fs/fatx/BootFATX.c:1394-1461 | the map of a 1GB partition, on which the layouts agree, reserves more than clusters 0 and 1 |
| FatxExtendedDrive.FormatExtended | fs/fatx/BootFATX.c:1344-1484 | if it reports success, the device is ready and header, chain map and root directory are as described if and only if no write of 256 sectors takes a 48-bit command; on a reliable drive it then does report success |
| FatxExtendedDrive.ExtendedReadsBackExactly | fs/fatx/BootFATX.c:1329-1484 | opened again, a formatted partition has its root where the formatter put it and clusters 0 and 1 reserved and no others, if and only if the layouts agree and the map was not written in full runs only (or there is no cluster) |
| FatxExtendedDrive.RootIsEmpty | fs/fatx/BootFATX.c:1463-1476 | and then its root directory is a chain of one cluster in which no name is found |
| RingList.Node.Init | include/list.h:23-25 | a ring of one |
| RingList.LinkBetween | include/list.h:33-41 | links a node between two others, which may be the same, and changes no other link |
| RingList.Add | include/list.h:51-54 | the ring, in both directions, gains the node right behind the head |
| RingList.AddTail | include/list.h:64-67 | the ring gains the node at its end |
| RingList.Unlink | include/list.h:76-80 | the ring closes around the entry, whose own links stay |
| RingList.Del | include/list.h:87-92 | the ring without the entry, whose links are null |
| RingList.DelInit | include/list.h:98-102 | the ring without the entry, which is a ring of its own |
| RingList.Move | include/list.h:109-113 | from any place to behind the head of another ring or of its own; both rings stay well formed |
| RingList.MoveTail | include/list.h:120-125 | the same to the end |
| RingList.MoveConserves | include/list.h:109-125 | moving within a ring loses and invents no node |
| RingList.EmptyIff | include/list.h:131-134 | the emptiness test holds if and only if the ring has no entries |
| RingList.SpliceLinks | include/list.h:136-148 | the four link updates join the entries of one ring in front of those of another |
| RingList.Splice | include/list.h:155-159 | one ring of the head, the entries of the list, then those of the head, also for an empty list |
| RingList.SpliceInit | include/list.h:168-175 | and the emptied list is a ring of its own |
| RingList.ForEachSafe | include/list.h:209-211 | every original entry is visited once and in order while the body deletes any set of current entries; the others stay linked in order |
| RingList.KeptExactly | include/list.h:209-211 | exactly the nodes that are not deleted stay |
| RingList.KeptJoins | include/list.h:209-211 | and they stay in their order |
| FocusPll.WorkingMultiplier | drivers/video/focus.c:367-432 | a multiplier that meets the clock ranges is at least 100, so the stored M - 17 cannot be negative |
| FocusPll.OverflowIsOutOfRange | drivers/video/focus.c:367-432 | the 32-bit product of input clock and multiplier is right, or negative where the true one is above the range |
| FocusPll.ProductOverflows | drivers/video/focus.c:367-432 | at 1000000 * 2148 it wraps |
| FocusPll.FindM | drivers/video/focus.c:367-432 | the innermost loop, with its wrapping product, finds the first multiplier that works, or none works |
| FocusPll.FindN | drivers/video/focus.c:367-432 | the loop over dividers finds the first that works, or none works |
| FocusPll.CalcPllSettings | drivers/video/focus.c:367-432 | 1 means the registers decode to the first triple that works and to the two NCO numbers, 0 that none in the searched ranges does and that no register changed |

## Left out

Deliberately weaker or narrower statements:

- FlashTermination.WriteEndsExactly: a chip answers each erase method in one way: it clears, ignores, or is busy in vain for at least two reads (three for the wider erases of a BIOS job, which start with a lower count). For vain busy times in between the outcome depends on the parity of bit 6; `VainRun` covers them one way. `JobEnds` lets every single erase command clear or be ignored, and the correctness theorems allow any answer.
- FlashTermination.WriteSucceedsExactly: the same division of chip answers.
- FlashSettings.SaveConservesExactly: each erase method either always clears or never does; `SaveConservesImage` has the same condition in terms of the erase method reached, for every chip.
- FlashMisalignedExactly.MisalignedSaveContents: the same chips; `MisalignedSaveMisplaces` holds for every chip.
- FlashMisalignedExactly.MisalignedSaveKeepsExactly: the same chips.
- FlashMisalignedExactly.MisalignedSaveFoundExactly: the same chips.
- FlashMisalignedExactly.MisalignedSaveLoadsExactly: the same chips.
- FlashMisalignedEnds.MisalignedEndsExactly: the division of chip answers of `WriteEndsExactly`.
- FlashMisalignedEnds.MisalignedSucceedsExactly: the same division.
- FlashUpdate.ValidatesExactly: the digest is any function of the image and a length; the code reads past the image if the BIOS size in it is larger.
- FlashEngine.Engine.MirrorImage: requires that the mirrored image fits the 1MB buffer, which the code does not check; `MirrorFitsExactly` says when it does.
- FlashEngine.Engine.StartWriteBios: the same requirement.
- FlashEngine.Engine.UpdateOs: the same requirement.
- FlashEngine.Engine.BootReadSettings: requires that a job that is already running comes to an end; otherwise the code does not return.
- AtaDrive.SendsWhatItAnnounces: lengths up to 256, the documented ones.
- AtaDrive.Drive.WriteMultiple: requires a range below 2^32; `MultipleDecodesExactly` says what happens beyond. The uninitialised `status` is taken as 0.
- FatxExtendedDrive.FormatExtended: when a write of 256 sectors takes a 48-bit command, only what a reported success means is stated. It begins behind the partition-table update.
- AtaDrive.Drive.ReadSector: hard disks only; a data error is retried until it passes, so a drive that fails forever is not modelled.
- Fatx.RawRead: requires a sector address or at least one sector of data; a shorter read from inside a sector makes the count of the code negative. Read errors are not modelled.
- Fatx.Open: read errors are not modelled.
- Fatx.LoadFromDisk: requires a chain that ends inside the partition and a buffer that holds the file, as the code does.
- FatxListing.Collect: requires that the chain ends, or an end marker or enough names come before it leaves the partition; otherwise the code does not return or reads outside.
- FatxListing.ListDir: the same.
- FatxLookup.FindFile: requires that the search in each entered directory ends, at an end marker, a match or the end of the chain; otherwise the code does not return.
- FatxLookup.LookupRefinesTree: the same.
- FatxListing.SortNames: the number-aware name comparison is any total preorder.
- FocusPll.CalcPllSettings: the NCO clock, which the code computes in single precision, is given as a whole number per multiplier.

Not modelled:

- The 28xxx flash protocol, the bus cycles and tables that identify the chip, and bank switching; one bank is visible and the chip is at least 256KB.
- Erases that clear only part of their unit, for instance when power fails.
- `Flash_ReadBIOSBank` and the bodies of the MD5 and CRC routines.
- Aborting or re-identifying the device while a job runs.
- User interface, progress display and logging.
- Formatting C: and the cache partitions, and partition tables.
- Case folding beyond ASCII.
- ATA status polling, ATAPI, SMART, security commands and drive setup.
- Everything else in the repository: boot sequence, video modes, LCD, USB, network, scripting engine and menus.
