# Verification of the flash-programming path

A Dafny model of an offline SWD programmer, from the text of an image down to the bits on the debug wire, with
proofs that the layers compose: a run that reports success has left exactly the image in the flash, except that the
sector of the last byte, unless this byte ends it, is written by a close whose result is dropped; the rest of each
sector the image touches is 0xFF, and no other sector has changed.

## The stack

| file | models |
|---|---|
| `Words.dfy` | bytes, 32-bit words, overlays, multiples |
| `FlashIface.dfy` | the shared types, the sector geometry, where an algorithm's RAM lies |
| `FlashModel.dfy` | the reference: a flash written one byte at a time through one open 0xFF-filled sector |
| `FlashResult.dfy`, `Reflash.dfy` | what such writes leave at every address, when they survive, and why repeating them changes nothing |
| `DebugPort.dfy` | requests and registers of the debug port |
| `DebugTarget.dfy` | the far end: debug port, MEM-AP, memory, flash routines, and the log of what was run |
| `SwdPacket.dfy` | one SWD packet, bit by bit, between the host's loops and a target state machine |
| `SwdIface.dfy` | retried transfers, the SELECT/CSW cache, memory access in bytes and 1 KiB-limited word blocks |
| `TargetFlash.dfy` | the flash-algorithm driver: selection, download, Init/UnInit bracket, erase, program and verify |
| `Session.dfy` | what a lawful log of a session says, event by event; the RAM layout of an extracted algorithm |
| `FlashAccessor.dfy` | the sector write-back buffer |
| `HexMachine.dfy`, `HexFormat.dfy` | the Intel HEX decoder as a character machine, the format, and when the two agree |
| `HexParser.dfy`, `HexProgram.dfy`, `BinProgram.dfy` | the streaming decoder with its buffers, and the two kinds of image over the accessor |
| `EndToEnd.dfy` | a whole file programmed in blocks |
| `Archive.dfy` | the archive of flash algorithms: writer and look-up |

Objects that the source updates in place are classes here; each method is proved against a function or a
relation of values, and the main results are stated about those.

**The target is an oracle.** Erase and program routines are constrained by a frame only: they change nothing but
their own range and the algorithm's data and stack. What they write is not trusted; the read-back proves it.
Transfers may be answered WAIT finitely often, refused, lost or garbled at any time. Every transfer goes through the
bit loops of `SwdPacket.Wire`; on that wire at most one data bit of a packet arrives inverted, acknowledge bits
arrive as sent, and a line nobody drives reads 1, so that a lost packet is answered 7. An AP write may still be under
way when it is acknowledged; the next AP access and a read of the read buffer wait for it. Four notes keep the statements
exact.

- `noisy`: in this session a read that cannot simply be repeated, of an AP register or the read buffer, has failed its
  parity check (it is repeated all the same, see `DebugTarget.RetriedReadSkips`). Contents are promised only while it
  is false; `init` clears it, whatever an earlier session misread.
- `stale`: a SELECT or CSW write has failed. The cache takes the value before the write is made. So it differs from the
  register now, unless it held the placeholder before, and the same write asked for again is answered true without a
  transfer. Nothing is promised about memory accesses while it is set. A routine is taken to keep to its frame all the
  same, although `FlashSyscallExec` sets up its registers through this cache; that sectors an image does not touch are
  spared in failing runs too relies on it.
- `erases`: EraseSector really leaves 0xFF, needed only for the claim that every page is programmed onto blank bytes.
- `reliable`: nothing goes wrong except that transfers may have to wait and that the target, once asked for power, may
  take up to 100 polls to have it; and ProgramPage puts what it is given onto blank bytes. On such a target every layer is shown to succeed, so that no contract is met by an implementation that
  only fails.

**Addresses.** A chip's sectors end at or below 2^32 - 1. Writes are asked for below the end of the chip's last
sector run: the source's size look-up has no upper bound of its own. Below the first sector the source's error
path is modelled.

**Main results.**

- `EndToEnd.ProgramHexFile` and `EndToEnd.ProgramBinary`: a run that reports success has left exactly the image in
  the flash, except that the sector of the last byte, unless this byte ends it, is written by a close whose result the
  source drops; if that sector was there already, all is final however the close ends; if the whole image was, no
  routine was logged; a run on a reliable target does succeed, whatever went wrong in earlier sessions; and no run,
  however it goes, changes a sector the image does not touch. Once a session is open, success is reported if and only
  if the image decodes to its end and no write error was reported; and whatever happens, the session is closed and the
  target released at the end, unless an UnInit fails.
- `FlashIface.GeometryIff`: the sector look-up works for exactly the tables with a stated alignment.
- `Accessor.FlashAccessor.Write` and `Uninit`: the sector buffer refines the byte-at-a-time flash;
  `FlashResult.SurvivesIff`: a written byte is lost exactly when its sector is opened afresh later.
- `HexFormat.DecodesToMeaning`: the decoder follows the format if and only if the records are regular;
  `HexMachine.ChunkIndependent`: cutting a text that decodes to its end changes nothing; `CutsOnlyAdd`: cutting any
  text loses nothing.
- `HexFormat.RefusedIff` and `DamagedFileRefused`: a damaged record is refused, except where only its byte count is hit
  (`DamagedCountAccepted`).
- `FlashDriver.TargetFlash.ProgramPage` and `Accessor.FlashAccessor.CompareFlush`: exactly which routines are run, with
  which arguments, in which order.
- `Session.LawfulCall`, with the invariant of `FlashDriver.TargetFlash`: the call protocol over all runs.
- `Swd.SwdIface.ReadMemory` and `WriteMemory`: posted, auto-incremented, cached accesses are a byte copy.
- `SwdPacket.Wire.Transfer`, and `DebugTarget.Target.Transfer` on top of it: the packet layer.
- `Archive.Find`: the look-up inverts the writer, and stays inside the data exactly if the last entry is not asked for.

**Where code and comments disagree**, the code is followed: the layout comment in
components/Program/src/algorithm.cpp:228 speaks of a 4K stack, the constant is 0x800.

## Model

| member | source | states |
|---|---|---|
| EndToEnd.ProgramHexFile | components/Program/src/file_programmer.cpp:76-108 | For every well-formed HEX text of ascending records, cut into blocks in any way. If success is reported and no read was garbled in this session: every sector but that of the last byte has its final content, and this one too if the byte ends it, or it was there already, or the close, whose result is dropped, went well; final means every byte where the format puts it, 0xFF around it, all else unchanged. If the flash held just that before, no routine is in the log of the run, however the close ended. In every run no sector changes but those the image touches. Once the session is open, success is reported exactly if no write error was; the session ends CLOSED with the release of the target as the last event, or a failed UnInit, also if a block fails. On a target where nothing goes wrong an image inside the flash is programmed |
| EndToEnd.ProgramHex | components/Program/src/file_programmer.cpp:76-108 | The same for any text whose blocks keep to the line buffer and the flash, ascending or not, other boards' data included: success is reported exactly if no checksum failed and no write error was reported, and means that what was decoded has been put as the byte-at-a-time flash puts it |
| EndToEnd.ProgramBinary | components/Program/src/file_programmer.cpp:76-108 | The same for a raw image in any blocks at its address; address 0 is refused |
| EndToEnd.ProgramOpen | components/Program/src/file_programmer.cpp:85-107 | From an open session: it is closed whether a block fails or not |
| EndToEnd.ReflashIdle | components/Program/src/flash_accessor.cpp:59-102 | The result of a first run satisfies the condition under which a second run does nothing |
| EndToEnd.SessionCommits | components/Program/src/flash_accessor.cpp:315-340 | Committing the open sector at the end gives the session's result; if the image was there already, no commit on the way changed anything |
| EndToEnd.AscendingFlashed | components/Program/src/flash_accessor.cpp:219-313 | For ascending writes "is the session's result" and "holds exactly the image" are the same thing |
| EndToEnd.Closing | components/Program/src/bin_program.cpp:58-61 | What holds after the close whatever its result, because it can change the open sector only, and nothing at all if what is gathered is there already |
| Reflash.FinalEarly | components/Program/src/bin_program.cpp:58-61 | For orderly writes, so for ascending ones: the flash is final before the close if and only if the last byte ends its sector, or this sector was so from the start |
| EndToEnd.RunningFeedable | components/Program/src/hex_program.cpp:51-115 | If the blocks decode to the end, every single block can be decoded by the call it is given to |
| FlashIface.SectorGeometry | components/Program/src/target_flash.cpp:331-352 | Reverse scan and rounding give every covered address one sector inside the covered range; the look-up agrees at all of its addresses, also at the rounded one, also where sizes change |
| FlashIface.SameSector | components/Program/src/flash_accessor.cpp:256-264 | Two covered addresses have the same sector exactly when one lies in the span of the other's |
| FlashIface.ScanFinds | components/Program/src/target_flash.cpp:337-343 | The reverse scan answers with the last entry that starts at or below the address |
| FlashIface.GeometryIff | components/Program/src/target_flash.cpp:331-352 | For every sorted table of positive sizes: rounding by the size looked up works at every covered address if and only if the first start is a multiple of its size, the limit of the last size, and each address at which the size changes of both sizes |
| FlashIface.EntrywiseAligned | components/Program/src/target_flash.cpp:331-352 | It does so in particular if every entry starts on, and spans, a multiple of its size |
| FlashIface.MisalignedEntryBreaks | components/Program/src/flash_accessor.cpp:157-160 | One table for which it does not: the rounded address leaves the table and the look-up there answers 0 |
| FlashIface.SameSizeHarmless | components/Program/src/flash_accessor.cpp:157-160 | One table with an entry off a multiple of its size for which it does, the sizes being equal |
| FlashIface.OpenEnded | components/Program/src/target_flash.cpp:337-343 | Behind the last sector run the look-up goes on answering with the last size |
| FlashModel.WriteIsCells | components/Program/src/flash_accessor.cpp:266-308 | A non-empty write is the sequence of its bytes, each put on its own |
| FlashModel.SplitWrite | components/Program/src/flash_accessor.cpp:266-308 | Splitting a consecutive write into two pieces never changes what it does |
| FlashModel.PutOpen | components/Program/src/flash_accessor.cpp:297-302 | Bytes put one by one into the open sector are one overlay of it, committed if it reaches the sector's end |
| FlashModel.QuietKeeps | components/Program/src/flash_accessor.cpp:59-102 | Writes that commit only what is there leave the flash as it was |
| FlashResult.WrittenView | components/Program/src/flash_accessor.cpp:105-313 | The byte at every address after any sequence of writes: the last one written since its sector was opened, 0xFF if none, the old one if it was never opened |
| FlashResult.SurvivesIff | components/Program/src/flash_accessor.cpp:144-182 | The last byte written to an address is in the flash at the end exactly when its sector is not opened afresh after it (or it is 0xFF) |
| FlashResult.AscendingOrderly | components/Program/src/flash_accessor.cpp:256-264 | Ascending writes never open a sector twice |
| FlashResult.OrderlyHolds | components/Program/src/flash_accessor.cpp:219-313 | Writes that never return to a flushed sector leave exactly the image, 0xFF around it in touched sectors, everything else untouched |
| FlashResult.OrderlyHoldsOnly | components/Program/src/flash_accessor.cpp:219-313 | No other flash content fits that description |
| FlashResult.KeptSector | components/Program/src/flash_accessor.cpp:105-142 | A change confined to one sector that a session touches spares all sectors it does not touch |
| FlashResult.OnlyOpenSettles | components/Program/src/flash_accessor.cpp:315-334 | If nothing but the open sector changes in the close, every other sector has its final content |
| FlashResult.SettledWhole | components/Program/src/flash_accessor.cpp:268-278 | If the last byte ends its sector, that is all of the flash |
| FlashResult.FinalBeforeClose | components/Program/src/flash_accessor.cpp:315-329 | Before the close the flash is final if and only if the last byte ends its sector or what is gathered is there already |
| FlashResult.ReportedTooEarly | components/Program/src/bin_program.cpp:58-61 | One byte that does not end its sector: nothing of it is in the flash before the close, whose failure is not reported |
| Reflash.Idempotent | components/Program/src/flash_accessor.cpp:219-313 | For all sequences of writes: a second pass leaves the flash as the first one did |
| Reflash.SettledQuiet | components/Program/src/flash_accessor.cpp:59-102 | If the flash already is the result of an orderly session, no commit of the session changes it |
| Reflash.OldUnderOpen | components/Program/src/flash_accessor.cpp:144-182 | In an orderly session the flash under the open sector is still what it was at the start |
| DebugTarget.RetriedReadSkips | components/Program/src/swd_iface.cpp:68-87 | For every number n of garbled answers: a DRW read that is then acknowledged, as TransferRetry reports it, brings the word n places behind the one asked for |
| DebugTarget.Target.Transfer | components/SWD/inc/sw_dp.h:136-280 | One packet through the bit loops, to a target that acts on the request and word it receives: refused packets have no effect, acknowledged ones act as ADIv5 says and bring its word, a garbled read has been carried out |
| Session.LawfulCall | components/Program/src/target_flash.cpp:57-79 | Every EraseSector, ProgramPage and Verify lies after a successful Init of the same algorithm with no UnInit, successful or not, download or reset between, finds the blob intact, erases at a sector start, no write to the target is under way, and none follows a write error before the next reset |
| Session.LawfulDownload | components/Program/src/target_flash.cpp:369-387 | An algorithm is downloaded, and the target released, only after every opened function was closed by a reset or by an UnInit that succeeded |
| Session.CountersTell | components/Program/src/target_flash.cpp:107-128 | Two counts of a log tell whether any routine, and whether a release, is among what was logged since: what "nothing ran" and "not released" mean above and below |
| Session.FailedMeans | components/Program/src/flash_accessor.cpp:219-313 | The flag that says so is set exactly if a write error was reported and no reset has come since |
| Session.BlankMeans | components/Program/src/flash_accessor.cpp:85-100 | The blank flag of a log says that every ProgramPage in it was given bytes that were all 0xFF at that moment |
| Session.ExtractedIsPlaced | components/Program/src/algorithm.cpp:223-232 | The blob is the header and the code behind it; the stack pointer is the page buffer, on the first multiple of 0x100 that leaves at least 0x800 bytes behind the blob, so that an extracted algorithm satisfies what the driver needs |
| Swd.PlanCovers | components/Program/src/swd_iface.cpp:372-478 | Byte head, word blocks and byte tail cover exactly the range in order; every block is a positive number of aligned words inside one 1 KiB page |
| Swd.PlanMaximal | components/Program/src/swd_iface.cpp:372-478 | No access can be longer: a byte alone only before a word boundary or when less than a word is left, a block to the end of its page or until then |
| Swd.NullWriteIff | components/Program/src/swd_iface.cpp:305-308 | The write whose data pointer is null happens exactly for memory writes of one to three bytes at address 0 |
| Swd.SwdIface.TransferRetry | components/Program/src/swd_iface.cpp:68-87 | Ends for finitely many WAITs; an acknowledged request has taken effect once; a write that failed has none; a read never changes memory, SELECT or CSW, and its answer is that of the last of its repetitions; if every answer is OK or WAIT it succeeds; it is retried until acknowledged or not answered, or until 100 answers have been refused and the last is not WAIT |
| Swd.SwdIface.ReadDp | components/Program/src/swd_iface.cpp:89-96 | Reading RDBUFF brings the posted result and changes nothing |
| Swd.SwdIface.WriteDp | components/Program/src/swd_iface.cpp:98-120 | The SELECT cache stays coherent, and a skipped write is a no-op; a failed write leaves the cache with the value that was not stored, and the same write asked for again is answered true without a transfer |
| Swd.SwdIface.WriteAp | components/Program/src/swd_iface.cpp:140-174 | The same for CSW: a write that fails leaves one of the two cached values different from its register; after success AP 0, bank 0 and the intended access mode are selected |
| Swd.SwdIface.WriteData | components/Program/src/swd_iface.cpp:287-309 | Stores at the address in the current access mode, or fails without effect; at address 0 it repeats the DRW write with a null pointer and does not succeed |
| Swd.SwdIface.ReadData | components/Program/src/swd_iface.cpp:263-285 | Brings the word at the address through the read buffer |
| Swd.SwdIface.WriteByte | components/Program/src/swd_iface.cpp:354-370 | Changes exactly the byte at the address, on its lane; the null pointer is used exactly at address 0 |
| Swd.SwdIface.ReadByte | components/Program/src/swd_iface.cpp:336-352 | Brings the byte at the address from its lane |
| Swd.SwdIface.WriteBlock | components/Program/src/swd_iface.cpp:176-215 | Writes exactly the words given, although TAR is unpredictable at the end of its page; nothing outside is touched even on failure |
| Swd.SwdIface.ReadBlock | components/Program/src/swd_iface.cpp:217-261 | Brings exactly the words asked for, although each read returns the result of the one before and the last word comes from RDBUFF |
| Swd.SwdIface.ReadMemory | components/Program/src/swd_iface.cpp:372-424 | A byte copy from target memory for every address and size, which succeeds if every transfer does; memory and the rest of the buffer are untouched; the accesses made are the plan |
| Swd.SwdIface.WriteMemory | components/Program/src/swd_iface.cpp:426-478 | A byte copy into target memory, which succeeds if every transfer does, and has completed if it succeeds, except for one to three bytes at address 0, where the null pointer is used and it does not; on failure nothing outside the range has changed; the accesses made are the plan |
| Swd.SwdIface.InitDebug | components/Program/src/swd_iface.cpp:731-804 | The line is switched to SWD; after success IDCODE has been read, the error flags were cleared, power was asked for and both acknowledges were read, CTRL/STAT holds 0x50000F00, SELECT is 0 and the cache is right; memory is untouched; a target that takes up to 100 polls to power up is waited for |
| FlashDriver.StagingHarmless | components/Program/src/target_flash.cpp:157-161 | Whatever is put into the page buffer touches neither the flash nor the blob |
| FlashDriver.RegionForIs | components/Program/src/target_flash.cpp:28-44 | By index: if a region covers the address and none before it does, it is the one that serves, with its algorithm or none |
| FlashDriver.RegionForElse | components/Program/src/target_flash.cpp:46-54 | If no region covers it, the default region serves, if there is one |
| FlashDriver.FirstDefaultIs | components/Program/src/target_flash.cpp:93-101 | The default region is the first one flagged |
| FlashDriver.NoDefaultIff | components/Program/src/target_flash.cpp:93-101 | There is none exactly if none is flagged |
| FlashDriver.LeftOverDefault | components/Program/src/target_flash.cpp:94-102 | flash_init keeps the default region of an earlier configuration if the new one flags none: this never matters if and only if one is flagged, or none was left, or it has no algorithm, or every address is covered |
| FlashDriver.OldDefaultServes | components/Program/src/target_flash.cpp:47-54 | A configuration for which it does: an address outside its one region gets the old algorithm in place of an error |
| FlashDriver.ServesAnyDefault | components/Program/src/target_flash.cpp:94-102 | A configuration that serves every flash address without a default does so with any |
| FlashDriver.RoutineFrame | components/Program/src/target_flash.cpp:164-168 | A routine that keeps to its frame leaves the blob, the page buffer and all flash outside its range alone |
| FlashDriver.TargetFlash.FuncStart | components/Program/src/target_flash.cpp:57-79 | Runs Init of the selected algorithm, for its region and with the number of the function, only when nothing is open, UnInit with the number of the last function only when something is, nothing when switching between open functions, and keeps the protocol on failure |
| FlashDriver.TargetFlash.EraseSectorSize | components/Program/src/target_flash.cpp:331-352 | The loop finds the entry of the reverse scan, 0 below the table or without configuration |
| FlashDriver.TargetFlash.ProgramPageMinSize | components/Program/src/target_flash.cpp:314-329 | The smaller of 256 and the sector size |
| FlashDriver.TargetFlash.GetFlashAlgo | components/Program/src/target_flash.cpp:28-55 | The algorithm of the region that serves the address (`RegionForIs`, `RegionForElse`); the region's start is noted |
| FlashDriver.TargetFlash.AlgoSet | components/Program/src/target_flash.cpp:359-390 | Selects that algorithm; downloads it only if it is another one and with no function open; after success it is in RAM intact, and the region's start is what Init will be given; ALGO_MISSING exactly if there is none, and then nothing is logged; the flash is untouched |
| FlashDriver.TargetFlash.FlashInit | components/Program/src/target_flash.cpp:81-105 | Resets for programming with nothing selected and nothing open; the first region flagged as default is noted; leaves the flash alone |
| FlashDriver.TargetFlash.FlashUninit | components/Program/src/target_flash.cpp:107-128 | Closes an open function before the target is released, which is the last thing done; a failed UnInit is all that is logged, nothing is released, and the function stays open; runs nothing if none is open |
| FlashDriver.TargetFlash.EraseSector | components/Program/src/target_flash.cpp:227-263 | Refuses addresses that do not start a sector; otherwise changes at most that sector, and leaves it blank if erasing works; success means that Init, unless a function was open, and one EraseSector at the address were run, and nothing else; a failed call is the error reported |
| FlashDriver.TargetFlash.ProgramPage | components/Program/src/target_flash.cpp:130-225 | Success means the flash range equals the buffer, whatever the routine wrote; nothing outside the range changes; a blank range means every page was programmed onto blank bytes, and on a reliable target that it succeeds. The calls run are Init for programming, unless a function was open, and one ProgramPage per page buffer, from the address on in order, the last as long as what is left, each followed by Verify if there is one: all of them on success, and on failure the first so many, of which all but the last succeeded |
| FlashDriver.TargetFlash.ProgramChunk | components/Program/src/target_flash.cpp:154-214 | The same for one page buffer, verified by the algorithm or by reading back |
| FlashDriver.TargetFlash.ReadBack | components/Program/src/target_flash.cpp:189-214 | Success means target memory equals the data, and was read in pieces of 1024 bytes |
| Accessor.FlashAccessor.ScanBlock | components/Program/src/flash_accessor.cpp:43-83 | Both answers are right about the whole block, although the scan stops early, which it does only if both are no; it reads pieces of 1024 bytes |
| Accessor.FlashAccessor.CompareFlush | components/Program/src/flash_accessor.cpp:36-103 | On success the flash block equals the buffer, nothing around it changes, pages go onto blank bytes only, and a block that is there already stays so and logs nothing, also if the comparison cannot be finished; else the calls are one EraseSector exactly if the block is not blank, and those of ProgramPage; if the erase fails the target is handed back |
| Accessor.FlashAccessor.FlushCurrentBlock | components/Program/src/flash_accessor.cpp:105-142 | Commits the gathered sector as the byte model does, clears the buffer and moves the block on; what is there already stays so and runs nothing, whether the flush succeeds or not; no block is an error |
| Accessor.FlashAccessor.SetupNextSector | components/Program/src/flash_accessor.cpp:144-185 | Called with nothing gathered only; afterwards block, sector and buffer agree and hold the address, and the algorithm selected is that of the sector; INTERNAL exactly below the first sector; if no algorithm can be selected the target is handed back |
| Accessor.FlashAccessor.Init | components/Program/src/flash_accessor.cpp:187-217 | Opens only from CLOSED; the store is the flash as it was with nothing gathered; what was misread in earlier sessions does not matter any more |
| Accessor.FlashAccessor.MoveTo | components/Program/src/flash_accessor.cpp:231-264 | Moving to an address commits the open sector exactly when the address is outside it |
| Accessor.FlashAccessor.Settle | components/Program/src/flash_accessor.cpp:268-278 | A block the position has passed is flushed, as the byte model commits on the last byte |
| Accessor.FlashAccessor.Enter | components/Program/src/flash_accessor.cpp:286-295 | Entering the next sector discards nothing |
| Accessor.FlashAccessor.Copy | components/Program/src/flash_accessor.cpp:297-302 | One copy into the buffer stays in bounds and is the same as putting its bytes one by one |
| Accessor.FlashAccessor.Gathering | components/Program/src/flash_accessor.cpp:266-310 | The loop ends, keeps the two-phase invariant, and puts every byte of the write in order |
| Accessor.FlashAccessor.Write | components/Program/src/flash_accessor.cpp:219-313 | For writes of any address and size: success refines the byte-at-a-time flash; failure leaves ERROR, after which nothing is erased or programmed; a write that finds its bytes in the flash runs nothing; on a reliable target a write into the flash succeeds |
| Accessor.FlashAccessor.Uninit | components/Program/src/flash_accessor.cpp:315-354 | The last sector is committed and the state is CLOSED whatever went wrong; nothing but the open sector changes, and nothing at all if this is there already, whatever is returned; the target is released last, and no release is logged if UnInit fails; a session without a write ends in an error, one with a write succeeds on a reliable target |
| Accessor.FlashAccessor.SessionSpares | components/Program/src/flash_accessor.cpp:36-142 | In every reachable state, after failures too, no sector has changed since init but those of the bytes the session was asked to write |
| HexMachine.OrNibble | components/Program/src/hex_parser.c:141-141 | The bitwise or of the two digits of a byte is their sum |
| HexMachine.FeedAppend | components/Program/src/hex_parser.c:81-267 | Feeding a text in two pieces, cut anywhere, is feeding it at once |
| HexMachine.ChunkIndependent | components/Program/src/hex_program.cpp:51-115 | The decoded bytes and addresses are the same for every split of the text, inside a record, after a postponed one, or before the re-read digit of an address record |
| HexMachine.CutsOnlyAdd | components/Program/src/hex_program.cpp:51-115 | For every text: what the uncut text decodes to is where every split begins, and all that it gives unless the text ends at an end-of-file record or in another board's data |
| HexFormat.CutBehindEnd | components/Program/src/hex_program.cpp:92-104 | Records behind an end-of-file record: not decoded, unless a cut falls between; then they are |
| HexFormat.CutBehindOtherBoard | components/Program/src/hex_parser.c:191-200 | Another board's data, then records of our own: these are dropped with the rest of the block, unless a cut falls before them |
| HexFormat.CuttingMatters | components/Program/src/hex_parser.c:88-101 | One such file and two ways of cutting it, of which one loses a byte |
| HexFormat.UnmarkedDropped | components/Program/src/hex_parser.c:88-101 | While another board's data is skipped, every block that does not begin with a record mark is dropped |
| HexFormat.WrongSumRefused | components/Program/src/hex_parser.c:64-74 | Every record whose bytes do not add up to 0 modulo 256, in every spelling, ends the decoding with a checksum failure, and nothing of it is decoded |
| HexFormat.RefusedIff | components/Program/src/hex_parser.c:139-151 | A line of digits is refused exactly if the bytes that its byte count announces do not add up; digits behind them do not matter |
| HexFormat.DamagedByteRefused | components/Program/src/hex_parser.c:64-74 | A record with one byte damaged, in one digit or both, is refused, unless it is the byte count |
| HexFormat.DamagedFileRefused | components/Program/src/hex_parser.c:64-74 | A file with such a record is never decoded to its end, however it is cut: what stands before it is decoded, and no more |
| HexFormat.DamagedCountAccepted | components/Program/src/hex_parser.c:139-151 | A record of two bytes whose damaged count makes it a valid record of one byte |
| HexFormat.DataDecodes | components/Program/src/hex_parser.c:164-190 | A data record of type 0x00 or 0x0D, given by its bytes: its data go to its address in the current 64 KiB |
| HexFormat.OtherTypesIgnored | components/Program/src/hex_parser.c:155-247 | Records of all types the decoder does not know are passed over |
| HexFormat.EveryRecordHasText | components/Program/src/hex_parser.c:118-151 | Every record has a text the decoder accepts |
| HexFormat.FeedLine | components/Program/src/hex_parser.c:118-254 | What a record's line does to the decoder, for digits in either case and any line ends |
| HexFormat.TextDecodes | components/Program/src/hex_parser.c:118-254 | Any text of a list of records decodes to the decoder's bytes for those records |
| HexFormat.DecodesToMeaning | components/Program/src/hex_parser.c:164-232 | For every list of records: the decoder yields the bytes and addresses the format assigns if and only if no data stands under a segment base off 64 KiB, leaves its segment, or follows a record that reached the end of its 64 KiB without an address record between |
| HexFormat.HexRoundTrip | components/Program/src/hex_parser.c:81-267 | Printing records in either case, cutting the text in any way and decoding it gives back what the format assigns, if and only if the records are regular |
| HexFormat.OddSegmentMisplaced | components/Program/src/hex_parser.c:207-218 | A file with segment base 0x1234 that is decoded to the wrong address |
| HexFormat.DataPastTopMisplaced | components/Program/src/hex_parser.c:170-190 | A file whose record at 0xFFFF sends the next one 64 KiB too high |
| HexParsing.CreditKept | components/Program/src/hex_parser.c:118-254 | Twice the bytes decoded never exceed 64 plus the characters consumed |
| HexParsing.HexParser.ValidateChecksum | components/Program/src/hex_parser.c:64-74 | True exactly when the record's bytes add up to 0 modulo 256; what that means for a record is `HexFormat.WrongSumRefused` |
| HexParsing.HexParser.Consume | components/Program/src/hex_parser.c:120-251 | One character in place does what the character machine does |
| HexParsing.HexParser.ParseBlob | components/Program/src/hex_parser.c:81-267 | One call: the bytes in the buffer, their start address and the characters consumed are such that the rest decodes as if nothing had been cut; the buffer does not overflow for blocks of at most 448 characters; the rest of it is 0xFF; a call that consumes nothing has processed the record it stopped at |
| HexProgramming.NoWrap | components/Program/src/hex_program.cpp:76-91 | Decoded bytes that lie below the end of the flash do not wrap around |
| HexProgramming.HexProgram.Init | components/Program/src/hex_program.cpp:20-25 | The parser is reset and a session is open, with the flash as it was |
| HexProgramming.HexProgram.Write | components/Program/src/hex_program.cpp:27-40 | A block, also while another board's data is skipped: success is reported exactly if no checksum fails and the accessor reports no error, and means that all of its bytes, as decoded, have been put at their addresses, and the parser is where the character machine is; the address reported goes from the first byte decoded to behind the last |
| HexProgramming.HexProgram.WriteHex | components/Program/src/hex_program.cpp:42-118 | The loop ends for every block, although an address record can report nothing consumed; every decoded byte is put once, in order; the size reported is their number |
| HexProgramming.HexProgram.Clean | components/Program/src/bin_program.cpp:58-61 | The session is closed whatever went wrong; the target is released last, unless UnInit fails |
| BinProgramming.BinaryProgram.Init | components/Program/src/bin_program.cpp:26-38 | Address 0 is refused; otherwise an empty stream begins at the address |
| BinProgramming.BinaryProgram.Write | components/Program/src/bin_program.cpp:40-51 | The accessor stands for the stream written in one go, however it was cut |
| BinProgramming.Extended | components/Program/src/bin_program.cpp:40-51 | What a further piece adds to a stream, in content and in changes to the flash |
| SwdPacket.HeaderDecodes | components/SWD/inc/sw_dp.h:146-163 | A target decodes exactly the request from the header bits, parity included, although the host sums unmasked shifted words that may wrap |
| SwdPacket.ShiftIn | components/SWD/inc/sw_dp.h:188-194 | Shifting right and setting bit 31 appends one bit to the bits of the value |
| SwdPacket.Wire.SendRequest | components/SWD/inc/sw_dp.h:146-163 | Eight clocks after which a target that answers has understood the request |
| SwdPacket.Wire.ReadAck | components/SWD/inc/sw_dp.h:172-178 | The acknowledge is the three bits the target sent |
| SwdPacket.Wire.ReadData | components/SWD/inc/sw_dp.h:185-203 | The parity check fails exactly when an odd number of the 33 bits arrived inverted; the value differs from the word sent in just the data bits that were; if the check passes, the word is right exactly when no bit was inverted |
| SwdPacket.Wire.WriteData | components/SWD/inc/sw_dp.h:219-228 | The target receives the word's bits and their right parity |
| SwdPacket.Wire.Transfer | components/SWD/inc/sw_dp.h:136-280 | Every outcome takes 46 clocks, or 13 on WAIT and FAULT, ends with the host driving high, and never has both ends driving; requests, data, acknowledges and parity errors are as above |
| SwdPacket.Wire.SwjSequence | components/SWD/inc/sw_dp.h:107-134 | Clocks out exactly the first count bits of the data, each byte least significant bit first |
| Archive.RegionLayout | components/Program/src/algorithm.cpp:39-55 | The offset of every field of a region record, zeros if there is no algorithm, and the blob behind them |
| Archive.SectorLayout | components/Program/src/algorithm.cpp:368-374 | The same for a sector record |
| Archive.EntryLayout | components/Program/src/algorithm.cpp:313-325 | The same for the front of an entry, up to the name and its NUL |
| Archive.HeaderExact | components/Program/src/algorithm.cpp:274-326 | The length stored in an entry's header is the number of bytes written exactly when these fit 16 bits and the sizes of algorithms without a blob add up to a multiple of 65536 |
| Archive.EntryLength | components/Program/src/algorithm.cpp:274-393 | The sum the header is taken from exceeds the bytes written by exactly those sizes |
| Archive.Writer.AlgorithmInfoWrite | components/Program/src/algorithm.cpp:274-326 | Appends header and info record; the 16-bit accumulation is the total modulo 65536 |
| Archive.Writer.RegionInfoWrite | components/Program/src/algorithm.cpp:328-366 | Appends the region's record and blob |
| Archive.Writer.Append | components/Program/src/algorithm.cpp:376-393 | Appends exactly one entry: sectors, flash regions, RAM regions in order |
| Archive.Writer.Merge | components/Program/src/algorithm.cpp:395-413 | The file is the archive of the given entries |
| Archive.ReadRegion | components/Program/src/algorithm.cpp:567-591 | Reads back what was written; a region without an algorithm gets an all-zero one |
| Archive.ReadRecords | components/Program/src/algorithm.cpp:553-603 | Reads sectors and regions in order up to the next entry's header; leaves the data exactly if there is none |
| Archive.MatchEntry | components/Program/src/algorithm.cpp:530-606 | Recognises the entry by its NUL-ended name, reads it back, and finds the way to the next one |
| Archive.Find | components/Program/src/algorithm.cpp:510-612 | Over any written archive: every read stays inside the data if and only if the last entry is not the one asked for, and then the look-up gives the last entry of that name as it was stored, or nothing |
| Archive.LastMatchIs | components/Program/src/algorithm.cpp:510-612 | Of entries with one name the last one counts |
| Archive.NoMatchIff | components/Program/src/algorithm.cpp:510-612 | Nothing is found exactly if no entry has the name |
| Archive.MatchUnique | components/Program/src/algorithm.cpp:510-612 | With distinct names that is the entry asked for |
| Archive.StoredIsSame | components/Program/src/algorithm.cpp:469-491 | An entry is read back unchanged exactly when every region has an algorithm and none of size zero has a blob |
| Archive.FoundDescribes | components/Program/src/algorithm.cpp:567-602 | A configuration that is looked up fits a chip if and only if the one written does and every flash region of it has an algorithm |

## Left out

- HexProgramming.HexProgram.Write: requires a block that is not empty while another board's data is skipped, where the source looks at its first character; the cutting matters for such files (Universal Hex, types 0x0A and 0x0D), by design (`HexFormat.CuttingMatters`). Requires what `WriteHex` does.
- HexProgramming.HexProgram.WriteHex: if the first byte decoded goes to address 0, nothing is promised about the address reported. Requires records of at most 32 bytes, because longer ones overrun the source's line buffer, and addresses below the end of the flash.
- Accessor.FlashAccessor.Write: requires the range to end at or below the end of the chip's last sector run, and that end to be below 2^32, where the source's block-end sums would wrap. Behind it the source's look-up goes on with the last size (`FlashIface.OpenEnded`), and what erasing and programming do there is not the chip's flash any more.
- FlashDriver.TargetFlash.EraseSector: requires an address inside the chip's flash, for the same reason.
- FlashDriver.TargetFlash.ProgramPage: requires a range inside the chip's flash, for the same reason; and page buffers that are not empty (`program_buffer_size` > 0), because with size 0 the source would loop for ever.
- BinProgramming.BinaryProgram.Write: requires the piece to end inside the flash, for the same reason.
- Accessor.FlashAccessor.ScanBlock: the answers are promised only while no read that cannot be repeated has failed its parity check, because the source repeats such reads.
- EndToEnd.ProgramHexFile: `closed`, the result of the final uninit that `clean` drops, is returned besides the result of `program`; it is none if the session could not be opened.
- Swd.SwdIface.WriteMemory: what happens behind the use of a null pointer is not modelled, only that it is used; ranges do not wrap past 2^32.
- Swd.SwdIface.InitDebug: the pin set-up and the sequences of the switch to SWD before the first read are one step.
- Swd.SwdIface.SetTargetState: the reset sequences through debug registers, some of them unbounded waits, are an oracle that keeps the flash.
- Swd.SwdIface.FlashSyscallExec: register set-up, running and halting are an oracle; a Verify entry is taken to succeed only on a match.
- SwdPacket.Wire.Transfer: a target that does not answer is modelled until the next line reset, the line reset itself is not; noise is modelled on data bits.
- Archive.Find: what lies behind the data is not modelled, only that it is read; malformed archives are not modelled.
- Archive.Writer.Append: padding bytes of the info record are a parameter; the blob of an algorithm is as long as its size field says.
- The file-based `find`, `list_device`, the ELF walk of `extract` (only its layout arithmetic is modelled), `main`, progress display, logging, file handling, and the choice between HEX and raw images by file name: input and output with little logic of their own.
- GPIO register files and the per-board classes: device access; pins are reduced to one event per clock.
- `flash_erase_chip` runs the EraseChip routine of every region, `delay_calculate` turns a clock rate into a delay count, and `read_ap`, `read_word` and `write_word` are single register accesses; programming a file uses none of them but for the debug registers of the oracles above.
- The static page-buffer variant, which is compiled out.
