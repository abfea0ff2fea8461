# AVaRICE in Dafny

AVaRICE connects GDB to the Atmel JTAG emulators. This project models the parts of it
that are algorithms rather than I/O, and proves what they promise:

- **The mkII wire protocol** (`Crc16.dfy`, `Frame.dfy`, `Jtag2Io.dfy`,
  `StopAndWait.dfy`). The table-driven CRC is the bit-by-bit CRC with generator 0x8408
  (section C.2 of RFC 1662, without the final complement). Decoding undoes encoding
  after any skipped bytes, damage is dropped, and what is handed out is an encoded
  message exactly when the line did not go quiet inside its frame. The receiver is
  proved against a recursive scan of the byte stream. The conversation is a system of
  two FIFO lines with losses, retries, events and a sequence number that wraps around.
- **The mkII breakpoint manager** (`BreakpointTable.dfy`, `Breakpoints.dfy`,
  `Emulator.dfy`, `BreakpointRuns.dfy`, `FailedAdds.dfy`, `SlotCounts.dfy`,
  `SlotRules.dfy`, `Sessions.dfy`). The flag table is a class whose methods change it in
  place. Over every run it stands for a plain set of breakpoints, and after each update the
  emulator, which reads the commands by their numbers alone, watches exactly that set in
  slots the device allows. Runs may contain failed adds, and which of them do harm is said
  exactly. The greedy slot allocation succeeds exactly when any allocation does, and that
  is exactly when the breakpoints fit the free slots by number.
- **The programming path** (`PageAccess.dfy`, `TargetMemory.dfy`, `Image.dfy`,
  `Programming.dfy`), from the sections of a file through the image, blank page
  skipping, page writes in chunks and the one-page read caches to the verify pass.
- **The permuting option scanner** (`Getopt.dfy`, `LongOptions.dfy`, `CommandLines.dfy`),
  proved to be a stable partition of the command line, with the in-place exchange of
  blocks. What each option returns is said of the strings on the line, and every line is
  covered.
- **The first JTAG ICE's breakpoints** (`MkiBreakpoints.dfy`), over whole runs, and
  **USB packets** (`UsbPackets.dfy`).

`Common.dfy` holds bytes and options, `Spaces.dfy` the address spaces, `Folds.dfy` the
lemmas about folding a function over a sequence that the CRC proofs share.
`dafny verify dfyconfig.toml` checks everything.

## How the model reads the program

Objects that the program changes in place are classes; loops are loops. Each method is
proved equal to a specification function, or against a predicate on the states before
and after, and the lemmas are about these. Bytes that arrive, commands that succeed and
device memory are values: the input of a connection is the bytes that come before the
line goes quiet, and device memory maps addresses to bytes, 0xff where nothing was
written.

Where the program does something its comments or documentation do not say, the model
does what the program does:

- A command is sent at most four times, not eight or ten: `doJtagCommand` and
  `sendJtagCommand` count in the same variable, so the branch that resets the USB
  endpoints is never reached (src/jtag2io.cc:332, src/jtag2io.cc:373,
  src/jtag2io.cc:397).
- A frame that announces size zero reads no byte, which the receiver takes for silence
  (src/jtag2io.cc:170-179); `Frame.RoundTripExactly` gives the limits of the round trip.
- When the line goes quiet inside a frame, the receiver leaves its loop and hands back
  the announced length with a buffer nothing has verified (src/jtag2io.cc:176-187,
  src/jtag2io.cc:269-272); if the number matches, it counts as the reply and the sequence
  number advances. `Jtag2Io.CutOffReplySucceeds` gives nine bytes that a command takes
  for success, `Jtag2Io.HandedOutIsEncoded` the exact condition. When the line goes quiet
  inside a header, or after one that was rejected, a length can come back without even a
  buffer: `Jtag2Io.FourBytesCount` gives four bytes that do it and
  `Jtag2Io.NoBufferExactlyInHeader` the exact condition.
- A command that is given up does not advance the sequence number, so its late response
  can be taken for the next command's. `StopAndWait.WrongResponseExactlyWhenAnotherWasTried`
  says for which histories of the host that can happen, and `StopAndWait.GivingUpMisleads`
  shows a run.
- The test at src/jtaggeneric.cc:684 compares the type for equality where the comment
  asks for a failed search; it is always true, which does no harm for breakpoints of
  length one.
- A failed add can also drop other data breakpoints that are still pending, and can
  leave the breakpoint it was for in the emulator, marked neither wanted nor for
  clearing, until a later call names it again. `Sessions.FailedAddDropsAnother` and
  `Sessions.FailedAddLeavesOneBehind` are runs where this happens;
  `FailedAdds.FailedAddTakesBackItsOwn` and `FailedAdds.FailedAddKeepsGood` give the
  exact conditions.
- Software breakpoints are ruled out only for devices whose flags equal
  `DEVFL_NO_SOFTBP`, not for all that include it (src/jtaggeneric.cc:878); the
  configuration of the model holds the outcome of that comparison.
- A paged read keeps the offset of its first page for the later ones
  (src/jtag2rw.cc:163-197), and may then read past the end of the cache.
  `PageAccess.PagedReadIsRight` says when an answer is right all the same,
  `PageAccess.RightEverywhereIsAligned` which requests are safe on every device, and
  `PageAccess.UnalignedReadIsWrong` gives a device for each of the others.
- An even number of bytes read from an odd flash address outside programming mode comes
  back with its last byte wrong, because the byte was never fetched
  (src/jtag2rw.cc:117-121). `TargetMemory.PlainReadIsRight` gives the exact condition.
- A page write does not touch the read caches (src/jtag2rw.cc:226-314), so a verify
  pass may compare with a stale first page; later pages are always read.
  `Programming.VerifyMisled` is a good download that fails to verify, after a paged read
  of the page on the same connection; a run of the program that downloads makes no such
  read before (src/main.cc:681). `Programming.VerifiedIsHeldExactly` gives the exact
  condition on the cache.
- The mark for an empty EEPROM cache, 0xffff, is also a page address if pages are
  single bytes (src/jtag2.h:62).
- Bytes of a written page that no section covers are written as zero.
- A failed verification leaves programming mode on.
- Address bits that name no memory, such as 0x860000, are dropped and the access goes
  to flash (src/jtag2rw.cc:80-86).
- With `opterr` off, an argument given to a long option that takes none is ignored
  instead of refused (src/gnu_getopt.c:707-727).
- The first JTAG ICE's mode register is written only when comparator X is used, and
  nothing clears Z0 and Z1. `MkiBreakpoints.DeletedIsStillWatched` is a run where that
  shows, and `MkiBreakpoints.RunIsExact` says of every run whether it does.

## Model

| member | source | states |
|---|---|---|
| Crc16.CrcSum | src/crc16.c:49-60 | the table-driven loop computes the bit-by-bit CRC, least significant bit first with generator 0x8408, of every message and start value |
| Crc16.CheckValue | src/crc16.c:45-60 | from 0xffff the sum of the digits 1 to 9 is 0x6f91, the published check value of this CRC |
| Crc16.TableStepIsFeed | src/crc16.c:46-47 | one table step equals eight shifts of the polynomial register, for every state and byte |
| Crc16.CrcVerify | src/crc16.c:62-74 | true exactly when the last two bytes are the CRC of the others from 0xffff, low byte first |
| Crc16.CrcAppend | src/crc16.c:76-84 | writes the CRC from 0xffff of the bytes before, low byte first, and nothing else, after which verification succeeds |
| Crc16.CrcConcat | src/crc16.c:49-60 | the CRC of a concatenation continues from the CRC of its first part |
| Crc16.CrcIsLinear | src/crc16.c:46-60 | the CRC of the XOR of two equally long messages is the XOR of their CRCs |
| Crc16.FeedIsInjective | src/crc16.c:46-47 | for every byte the CRC step is a one-to-one map of the state |
| Crc16.VerifiedIsZeroResidue | src/crc16.c:62-74 | verification is equivalent to a zero CRC over the whole buffer, CRC bytes included |
| Crc16.DamageSeenByResidue | src/crc16.c:62-74 | damage to a good buffer goes unseen exactly when the damage pattern itself has a zero CRC from state zero |
| Crc16.TwoByteChangeIsDetected | src/crc16.c:62-74 | any change confined to two adjacent bytes of a verified buffer makes verification fail |
| Crc16.BurstIsDetected | src/crc16.c:62-74 | any error burst of up to 16 bits is detected, wherever it starts |
| Crc16.OddChangeIsDetected | src/crc16.c:62-74 | any change of an odd number of bits is detected |
| Frame.DecodeEncode | src/jtag2io.cc:112-273 | after any run of stray bytes and rejected headers, a frame of 1..MAX_MESSAGE bytes is received with its sequence number and message, and nothing beyond its CRC is taken |
| Frame.KnownFrame | src/jtag2io.cc:112-133 | the frame of the command byte 1 under number 0, written out: 1b 00 00 01 00 00 00 0e 01 f3 97 |
| Frame.ReceivedWasEncoded | src/jtag2io.cc:143-273 | the converse: whatever is received with its CRC was there as skipped bytes followed by exactly that frame's encoding |
| Frame.RoundTripExactly | src/jtag2io.cc:170-260 | a frame is received back exactly when its message has 1 to 100000 bytes; an empty one ends in silence with its CRC left on the line, a longer one has its header rejected and its message read as new input |
| Frame.CutOffIsHandedBack | src/jtag2io.cc:176-187 | when the line goes quiet inside an accepted frame, its number and announced length are handed back with what came, over what the buffer held before |
| Frame.HandedBackWasCutOff | src/jtag2io.cc:269-272 | the converse: silence hands back a buffer only where an accepted frame was cut off before the end of its CRC |
| Frame.DamagedFrameIsRejected | src/jtag2io.cc:251-260 | a frame whose start, size and token are intact and whose CRC fails is dropped whole and reported |
| Frame.ChangedFrameIsRejected | src/jtag2io.cc:251-260 | changing two adjacent bytes of sequence number, message or CRC never yields a message |
| Jtag2Io.Jtag2.HeaderByte | src/jtag2io.cc:190-241 | each byte up to the token keeps the receiver's invariant and what the scan yields; the write into the 8-byte header stays inside it and the index equals the position of the new state |
| Jtag2Io.HeaderStep | src/jtag2io.cc:202-224 | each header byte keeps the invariant that after the last size byte the length is the little-endian value of those four bytes, whatever an aborted header left in it |
| Jtag2Io.Jtag2.NewFrame | src/jtag2io.cc:112-133 | the frame built for a command is the encoding of the command under the current sequence number |
| Jtag2Io.Jtag2.SendFrame | src/jtag2io.cc:112-133 | exactly the encoded frame is written, after which the emulator's next answer is on the line |
| Jtag2Io.Jtag2.RecvFrame | src/jtag2io.cc:143-273 | the state machine over single bytes yields what the recursive scan of the input yields, length, buffer and number after silence included, and leaves the same rest |
| Jtag2Io.Jtag2.Recv | src/jtag2io.cc:279-314 | frames are read until one, whole or cut off, carries the awaited number; exactly then the number advances, skipping 0xffff |
| Jtag2Io.Jtag2.SendJtagCommand | src/jtag2io.cc:329-363 | counts the attempt, refuses from the tenth on without sending, and otherwise succeeds exactly on a matching reply of code 0x80 to 0x9f |
| Jtag2Io.Jtag2.DoJtagCommand | src/jtag2io.cc:366-409 | the state is that after n attempts, all but the last of which failed in a way that is retried, and the result is the one those replies call for |
| Jtag2Io.ReplyCodes | src/jtag2io.cc:355-395 | a reply is a success from 0x80 to 0x9f and a refusal above 0xa0; after 0xa0, a code below 0x80, silence or damage the command is sent again |
| Jtag2Io.EndedIsByCode | src/jtag2io.cc:366-409 | a command ends at once on a success or a refusal, with that reply or its code; else after four attempts, with the code of the last reply that had one, or a timeout if none had |
| Jtag2Io.FourFailures | src/jtag2io.cc:366-409 | after four replies of 0xa0 the result is that code |
| Jtag2Io.UnansweredIsRepeated | src/jtag2io.cc:366-409 | until it is answered a command goes out as the same frame again and again, and the number stays |
| Jtag2Io.AnswerMovesNumber | src/jtag2io.cc:289-299 | the answer moves the number on by one, from 0xfffe to 0 |
| Jtag2Io.HandedOutIsEncoded | src/jtag2io.cc:284-313 | a message handed out is that of a whole frame with the awaited number, after frames that are passed over, exactly when the line did not go quiet before that frame's CRC was read |
| Jtag2Io.IntactIsTaken | src/jtag2io.cc:284-313 | after anything that is passed over, an intact frame with the awaited number is taken and the rest is left |
| Jtag2Io.CutOffIsTaken | src/jtag2io.cc:284-299 | a cut-off frame with the awaited number is taken unverified, one with another number ends in silence |
| Jtag2Io.CutOffReplySucceeds | src/jtag2io.cc:284-299 | nine bytes and silence, no CRC among them, count as a positive reply to the first command |
| Jtag2Io.AnswerIsVerdict | src/jtag2io.cc:279-314 | every input splits into frames and bytes that are passed over and a part that stops the reading, and the answer is read off that part and the number and length left behind, without any recursion |
| Jtag2Io.NoBufferExactlyInHeader | src/jtag2io.cc:190-241 | a result without a buffer is handed out exactly when the line goes quiet inside a header, or right after what is passed over, with a length from 1 to 2^31 - 1 spelled so far and the awaited number or that of events |
| Jtag2Io.FourBytesCount | src/jtag2io.cc:190-221 | a start byte, the awaited number and one size byte, then silence, give such a result of length 0x01000000 |
| Jtag2Io.RejectedThenQuiet | src/jtag2io.cc:225-241 | so does a whole header that is rejected |
| Jtag2Io.OneFrame | src/jtag2io.cc:284-313 | after bytes the receiver skips, an intact frame is taken if its number matches and skipped whole if not |
| Jtag2Io.FirstMatchIsTaken | src/jtag2io.cc:284-313 | on a line of intact frames, with stray bytes and rejected headers between them, the first with the awaited number is taken; late duplicates and events before it are discarded, and without one what follows decides |
| StopAndWait.EveryAcceptedIsCurrent | src/jtag2io.cc:279-409 | in every run from the start, with losses, repeats, events and wraparound, an accepted response answers a frame sent since the last accepted one, and the current command unless a command was given up |
| StopAndWait.RunKeepsInv | src/jtag2io.cc:279-409 | every step of every run keeps frames under way within one epoch of the current one and the lines in order |
| StopAndWait.WrongResponseExactlyWhenAnotherWasTried | src/jtag2io.cc:366-409 | for every history the host has seen, some run with it has the response to another command accepted next exactly when the host sent another command since it last took a response |
| StopAndWait.RecvIsReads | src/jtag2io.cc:279-314 | on such a line reading until the awaited number is the run's read steps up to the one that accepts |
| StopAndWait.RecvFindsNone | src/jtag2io.cc:279-314 | without such a frame the reads empty the line and the answer is that on the bytes after it, silence if there are none |
| StopAndWait.GivingUpMisleads | src/jtag2io.cc:405-408 | a run without any loss: a command sent four times and given up, whose response is accepted for the next one |
| BreakpointTable.AllPlaced | src/jtaggeneric.cc:865-1012 | once every pending breakpoint has been given a slot, the slots are a placement: distinct, free and fitting |
| Breakpoints.Jtag.LayoutBreakpoints | src/jtaggeneric.cc:865-1012 | true exactly when the pending breakpoints admit an injective placement around the slots held, and then the table holds one and nothing else changed; otherwise, without masks, it disables exactly the data breakpoints that found both data slots taken |
| Breakpoints.Jtag.AddBreakpoint | src/jtaggeneric.cc:661-804 | enables the entry of this address and type, or takes a new or free one, marks what an update must send, and succeeds exactly when there is an entry and a placement |
| Breakpoints.Jtag.DeleteBreakpoint | src/jtaggeneric.cc:809-848 | disables the entry and marks it for clearing if it is installed; fails exactly when there is none |
| Breakpoints.Jtag.DeleteAllBreakpoints | src/jtag2bp.cc:57-69 | disables every entry and marks the installed ones for clearing |
| Breakpoints.Jtag.CodeBreakpointAt | src/jtag2bp.cc:41-55 | true exactly when a code breakpoint at the address is in the set asked for |
| Breakpoints.Jtag.UpdateBreakpoints | src/jtag2bp.cc:155-301 | lays out, then sends the clears and the sets of the marked entries in table order and records them as carried out |
| Emulator.SetCommandIsAsked | src/jtag2bp.cc:237-281 | the set command for an entry, read by its numbers, watches the accesses asked for at the address asked for, without its space bits |
| Emulator.AskedAtOffset | src/jtag2bp.cc:248 | the offset of a memory and sixteen bits more give those sixteen bits |
| SlotCounts.FeasibleExactly | src/jtaggeneric.cc:865-1012 | a placement exists exactly when masks, data and code breakpoints fit the free slots by number: slot 3 for one mask, slots 2 and 3 for data, all three for code, software breakpoints for the rest unless the device has none |
| SlotRules.AddSucceedsByCounting | src/jtaggeneric.cc:661-804 | an add succeeds exactly when there is an entry for it and the numbers then fit |
| SlotRules.DebugWireAdds | src/jtaggeneric.cc:877-905 | where only software breakpoints are left, as over debugWIRE, an add succeeds exactly for code, on a device with software breakpoints, if there is an entry |
| SlotRules.NoEntryExactly | src/jtaggeneric.cc:687-707 | there is no entry exactly when the list is full, none of its entries is for this breakpoint and each is wanted or waits to be cleared |
| SlotRules.FreeEntryIsReused | src/jtaggeneric.cc:687-725 | in a full list a new breakpoint takes an entry neither wanted nor waiting to be cleared, and no other entry changes |
| Sessions.RunMirrors | src/jtaggeneric.cc:661-848 | over every run of length-one adds that succeed, deletes, delete-alls and updates, the table stands for the plain set the calls describe, and after each update the emulator watches exactly that set: each breakpoint by its kind and address, in its program word or a slot of its own that device and connection allow |
| Sessions.RunWithFailuresMirrors | src/jtaggeneric.cc:661-848 | the same over every run with failed adds for breakpoints not installed, where a failed add takes out its own breakpoint and exactly those it drops |
| BreakpointRuns.AddKeepsGood | src/jtaggeneric.cc:661-804 | a successful add keeps the run invariant and adds exactly its breakpoint to the set |
| BreakpointRuns.DeleteKeepsGood | src/jtaggeneric.cc:809-848 | a delete keeps the run invariant and removes exactly its breakpoint |
| BreakpointRuns.DeleteAllKeepsGood | src/jtag2bp.cc:57-69 | deleting all keeps the run invariant and leaves the empty set |
| BreakpointRuns.UpdateKeepsGood | src/jtag2bp.cc:155-301 | an update keeps the invariant and the set, and leaves no work pending |
| BreakpointRuns.UpdateSendsTheDifference | src/jtag2bp.cc:161-300 | an update sends a clear for exactly what is installed and not wanted, then a set for exactly what is wanted and not installed |
| BreakpointRuns.ReAddIsFree | src/jtaggeneric.cc:774-785 | deleting a breakpoint and adding it again between two updates sends nothing |
| FailedAdds.FailedAddWants | src/jtaggeneric.cc:787-801 | a failed add leaves the set without its own breakpoint and without exactly the pending data breakpoints that find both data slots gone to those before them in the table |
| FailedAdds.FailedAddTakesBackItsOwn | src/jtaggeneric.cc:787-801 | it takes back only its own breakpoint exactly when there are no such others |
| FailedAdds.FailedAddKeepsGood | src/jtaggeneric.cc:774-801 | it keeps the run invariant exactly when the breakpoint it was for was not installed; otherwise that one is installed, unwanted and not marked for clearing |
| Sessions.FailedAddDropsAnother | src/jtaggeneric.cc:933-949 | a run, add a, add b, delete a, add c, in which adding a again fails and takes c with it |
| Sessions.FailedAddLeavesOneBehind | src/jtaggeneric.cc:774-801 | a run in which a failed add for an installed breakpoint leaves it in the emulator through the next update, with no breakpoint wanted |
| LongOptions.LookupIsTheMatch | src/gnu_getopt.c:658-695 | the loop finds an exact name wherever it stands, else the only name that starts with the text, reports ambiguity exactly when several do, and otherwise finds nothing; no other outcome fits |
| LongOptions.FindLongOption | src/gnu_getopt.c:658-695 | the loop as written computes that match |
| Getopt.ParseIsStablePartition | src/gnu_getopt.c:554-629 | reading marks every element as an option's or not, and each part lists its own in the original order, none dropped or repeated |
| Getopt.Scanner.Exchange | src/gnu_getopt.c:312-390 | the two blocks change places, each in order, everything outside is untouched, and firstNonopt and lastNonopt delimit the moved non-options; the loop ends |
| Getopt.Scanner.ShortOption | src/gnu_getopt.c:780-976 | one option character is decoded with its declared argument, from the rest of the element or the next one |
| Getopt.Scanner.LongOption | src/gnu_getopt.c:646-778 | a long option is looked up, its argument taken after = or from the next element, or the element is left to be read as short options |
| Getopt.Scanner.Advance | src/gnu_getopt.c:554-629 | skipping non-options and exchanging keeps what has been sorted and what is left equal to the parse of the whole line; at the end optind is at the first non-option |
| Getopt.Scanner.GetoptInternal | src/gnu_getopt.c:524-977 | one call returns the next option of the parse or ends with the line arranged |
| Getopt.Scanner.ScanAll | src/gnu_getopt.c:524-977 | calling until -1 leaves options, their arguments and a terminating -- first and all others after them, each in original order, with optind at the border, and returns what reading from left to right gives |
| CommandLines.LineIsRead | src/gnu_getopt.c:524-977 | a line of words, spelled as separate or joined elements, returns for each option what the option string or table declares: flags themselves, required and optional arguments from the rest of the element or the next one, long options by unique prefix with their value or 0, and ? or : for what is unknown, ambiguous, refused or missing |
| CommandLines.EveryLineIsOfWords | src/gnu_getopt.c:524-977 | every command line is such a line, unless single dashes begin long options too |
| PageAccess.PageOfIsRemainder | src/jtag2rw.cc:149-150 | the start of an address's page is the address less its remainder by the page size |
| PageAccess.PageReader.ReadPages | src/jtag2rw.cc:143-199 | says of every byte answered where on the device or in the old cache it comes from, when exactly the read runs past the cache, and what the cache holds afterwards |
| PageAccess.AlignedReadIsSeen | src/jtag2rw.cc:143-199 | a request that starts a page or stays in one never overruns and gets what the cache, for its first page, and otherwise the device show |
| PageAccess.PagedReadIsRight | src/jtag2rw.cc:143-199 | a read that does not overrun is right exactly when the cache is true where it is used and the bytes one offset further on happen to be those asked for |
| PageAccess.RightEverywhereIsAligned | src/jtag2rw.cc:143-199 | with a true cache the requests right on every device are exactly those that start a page or stay in one |
| PageAccess.ReadsAreRight | src/jtag2rw.cc:143-199 | over any run of reads with no write, overrunning ones included, every aligned read returns the device's bytes and the cache equals the page it records after each |
| PageAccess.UnalignedReadIsWrong | src/jtag2rw.cc:192-198 | for every other request there is a device and a true cache on which the answer is wrong or the read overruns |
| PageAccess.WriteKeepsCoherent | src/jtag2rw.cc:226-314 | after a write the cached page is still true exactly when the write changed none of its bytes |
| PageAccess.EmptyMarksAreNoPages | src/jtag2.h:61-62 | the marks of an empty cache are page addresses exactly when a page is one byte |
| TargetMemory.MemorySpace | src/jtag2rw.cc:45-88 | the address is split into the memory type its space bits name and the rest; code addresses keep all bits |
| TargetMemory.AddressRoundTrip | src/jtag2rw.cc:45-88 | the offset of a memory plus a byte address (16 bits, or any code address) comes back as that memory and that address, and flash and EEPROM go by pages exactly in programming mode |
| TargetMemory.Target.JtagRead | src/jtag2rw.cc:90-224 | a read answers from the memory the address names, paged through that memory's cache or in one command, touches no other cache and restores programming mode |
| TargetMemory.PlainReadIsRight | src/jtag2rw.cc:114-121 | an unpaged read is right exactly when it is not an even count at an odd flash address, or the two bytes happen to be equal |
| TargetMemory.Target.JtagWrite | src/jtag2rw.cc:226-314 | a page write of exactly the page size stores all of it at the page's start, another size stores nothing; an unpaged write stores the bytes, after a chip erase if it looks like the start of a load |
| TargetMemory.WrittenByte | src/jtag2rw.cc:226-314 | each byte of each memory after a write: the data at the address, or at the page start, and else what was there; the start of a load erases flash, lock bits, and EEPROM unless the fuse keeps it |
| TargetMemory.RegionsApart | src/jtag2rw.cc:45-88 | two memory types are the same memory exactly for the two of flash and the two of EEPROM |
| TargetMemory.WrittenIsReadBack | src/jtag2rw.cc:90-314 | an unpaged read of what was just written returns it, but for the byte that is never fetched |
| TargetMemory.WrittenPageIsReadBack | src/jtag2rw.cc:258-310 | the device shows a written page at the page's start |
| TargetMemory.Target.WriteChunks | src/jtag2rw.cc:277-310 | sending a page in chunks of 256 bytes stores the same as storing it at once |
| Image.SectionAddrIsTargetAddr | src/jtag2prog.cc:121-149 | a section goes into an image exactly if it is loadable and its load address is that memory's offset plus the image address |
| Image.BfdImage.InitImage | src/jtag2prog.cc:58-71 | the image is emptied |
| Image.BfdImage.CreateImage | src/jtag2prog.cc:153-203 | a section is laid over the image, and first and last address grow to take it in, so every byte in use lies between them |
| Image.OverlayCovers | src/jtag2prog.cc:177-183 | the bytes in use are exactly those some section covers |
| Image.LastWriterWins | src/jtag2prog.cc:177-183 | where sections overlap, the last one gives the byte |
| Programming.PageIsEmpty | src/jtaggeneric.cc:253-278 | a page is skipped exactly when it holds no byte of the image but 0xff in flash |
| Programming.ProgramImage | src/jtaggeneric.cc:315-356 | afterwards the pages that are not blank hold the image, gaps as zero, and every other byte of every memory is as before |
| Programming.ProgrammedByte | src/jtaggeneric.cc:253-356 | each byte afterwards: untouched if its page holds no byte of the image, or in flash none but 0xff, else the image's byte, or zero in a gap |
| Programming.ProgrammedHolds | src/jtaggeneric.cc:253-356 | the device holds the image exactly when the bytes of the skipped pages were already 0xff there; EEPROM always does |
| Programming.VerifyImage | src/jtaggeneric.cc:358-409 | verified exactly when every byte in use equals what the first page's cache and otherwise the device show |
| Programming.VerifiedIsHeld | src/jtaggeneric.cc:358-409 | unless the first page is cached with a wrong byte in use, the image verifies exactly when the device holds it |
| Programming.VerifiedIsHeldExactly | src/jtaggeneric.cc:358-409 | that condition on the cache is also necessary: only then is the verdict right for every image with those addresses in use |
| Programming.VerifyMisled | src/jtaggeneric.cc:358-409 | for every flash page size and any cache of a new connection, a paged read of one byte and a download after it: the device holds the image and verification fails |
| Programming.FlashImage | src/jtaggeneric.cc:299-410 | the passes asked for run on this memory only, and the verdict is exactly that of the comparison, whatever page is cached |
| Programming.FlashedHolds | src/jtaggeneric.cc:299-410 | a programmed image is held exactly when what was skipped was blank, and verifies exactly then unless the first page is cached wrongly |
| Image.FirstAddrIsLowest | src/jtag2prog.cc:191-196 | the pass starts at the lowest address any section of that memory has |
| Programming.PassStarts | src/jtaggeneric.cc:315-370 | the passes start on the page of that address |
| Programming.SectionBytesArrive | src/jtag2prog.cc:295-397 | into erased flash, or any EEPROM, each section byte no later section overwrites arrives, and verification succeeds unless the first page is cached wrongly |
| Programming.DownloadToTarget | src/jtag2prog.cc:368-387 | both images are collected in one pass over the sections and flashed in turn; a failed flash verification leaves EEPROM untouched and programming mode on |
| MkiBreakpoints.Jtag1.AddBreakpoint | src/jtagbp.cc:56-97 | appends, and fails exactly at four breakpoints or two of data |
| MkiBreakpoints.Jtag1.DeleteBreakpoint | src/jtagbp.cc:101-135 | removes the first equal breakpoint and keeps the order of the others; fails exactly when there is none |
| MkiBreakpoints.WithoutAt | src/jtagbp.cc:121-131 | it is the first equal one that goes, and those after it move up |
| MkiBreakpoints.WithoutTakesOne | src/jtagbp.cc:121-131 | the compaction takes exactly one breakpoint away |
| MkiBreakpoints.Jtag1.CodeBreakpointAt | src/jtagbp.cc:39-46 | true exactly when a code breakpoint at the word address is stored |
| MkiBreakpoints.Jtag1.UpdateBreakpoints | src/jtagbp.cc:138-240 | the first two code breakpoints go to Z0 and Z1, all others with their kind to X and Y, each once |
| MkiBreakpoints.EachInOneComparator | src/jtagbp.cc:62-90 | within the limits that adding enforces, the four comparators take every stored breakpoint exactly once, and the code-only ones only code |
| MkiBreakpoints.UpdateIsExact | src/jtagbp.cc:138-240 | the box then watches the stored breakpoints and nothing else exactly when each comparator the update does not write was off |
| MkiBreakpoints.WrittenIsOn | src/jtagbp.cc:48-240 | over every run of adds, deletes and updates the limits hold, and a comparator is on exactly when some update wrote it |
| MkiBreakpoints.RunIsExact | src/jtagbp.cc:48-240 | after an update that ends a run the box watches just the stored breakpoints exactly when every comparator they do not use was never written |
| MkiBreakpoints.RunCounts | src/jtagbp.cc:48-135 | over every run the lists hold exactly the breakpoints, by address and kind, that the successful adds and deletes leave |
| MkiBreakpoints.CallSucceeds | src/jtagbp.cc:56-135 | in every run an add succeeds exactly within the limits of four and of two for data, a delete exactly for what is stored |
| MkiBreakpoints.WireKeeps | src/jtagbp.cc:178-226 | the comparators get addresses of sixteen bits as they are |
| MkiBreakpoints.DeletedIsStillWatched | src/jtagbp.cc:138-240 | add, update, delete, update: the deleted breakpoint is still watched |
| UsbPackets.WriteMessage | src/jtag2usb.cc:1007-1036 | the writer cuts a message into its packets |
| UsbPackets.PacketsAreTheMessage | src/jtag2usb.cc:1007-1036 | the packets concatenate to the message, all full but the last, which is short or empty |
| UsbPackets.PacketsAreUnique | src/jtag2usb.cc:1007-1036 | no other packets have these properties |
| UsbPackets.ReadMessage | src/jtag2usb.cc:1054-1110 | the reader takes packets up to a short one, an empty one or a full buffer, and has them in its buffer in order |
| UsbPackets.ReadingIs | src/jtag2usb.cc:1054-1110 | of any packets the reader drops the empty ones, then puts full ones together until a short or empty one or 512 bytes end the message; one that does not fit is an overflow |
| UsbPackets.ReadingPackets | src/jtag2usb.cc:1054-1110 | the reader has every message of 1 to 512 bytes back from its packets, for every transfer size; only one that fills the buffer in several full packets leaves its empty packet behind |
| UsbPackets.StreamRoundTrip | src/jtag2usb.cc:1007-1110 | any stream of such messages arrives as it was sent, stray empty packets included |

## Left out

- Serial lines, termios, select, libusb, hidapi and threads: foreign I/O, taken as byte
  or packet sequences. A read that comes up short ends the input.
- Reading object files: a section is its flags, load address and contents.
- Breakpoints.Jtag.AddBreakpoint: length above one for data (range watchpoints) is not
  modelled; the mask lookup at src/jtaggeneric.cc:761-767 does not pair masks reliably.
  Masks remain in the layout, where they compete for slot 3.
- Sessions.RunMirrors: takes even code addresses and emulator commands that
  succeed; commands that fail raise an exception halfway through an update.
- Xmega devices with full firmware support, whose breakpoints the emulator removes on
  its own, and the Xmega memory types.
- Jtag2Io.Jtag2.RecvFrame: a pause inside a frame after which more bytes come; once the
  line is quiet it stays so. What the program does with a result that has no buffer.
- Jtag2Io.Jtag2.DoJtagCommand: is the form its callers in these files use, with retries on
  timeout; `doSimpleJtagCommand` and connection setup are left out.
- StopAndWait.EveryAcceptedIsCurrent: the emulator is a device that answers each frame at
  most once, in order, with that frame's number.
- Getopt.Scanner.ScanAll: the default ordering only, that is an option string that does not
  start with + or - and no POSIXLY_CORRECT, and no `W;` in it; messages, `optopt` and
  storing through `flag` are left out.
- CommandLines.EveryLineIsOfWords: where single dashes begin long options too, which
  src/main.cc:392 does not ask for, the rest of an element can be read as a long option
  halfway; such words are not among those described.
- TargetMemory.Target.JtagWrite: commands to the emulator succeed; the debugWIRE
  connection, which is always in page mode, is left out.
- Image.BfdImage.CreateImage: takes sections that fit the image array, which the program
  does not check.
- Programming.ProgramImage: takes an image that still fits once rounded up to whole pages.
- MkiBreakpoints.UpdateIsExact: whether the box turns comparators off by itself is not part
  of this model.
- UsbPackets.ReadMessage: retries after errors and time limits are left out; waiting for
  a packet that has not come is an outcome. The event endpoint's length prefix is left out.
- Fragmentation for EDBG probes and the libusb 2.0 loops: the former loses bytes for some
  lengths, and the latter tests a stale variable.
- The JTAGICE3 back end, fuses and lock bits, device tables, event and status output,
  bit rates and the GDB remote protocol: near duplicates or I/O.
