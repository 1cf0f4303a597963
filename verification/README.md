# Debug agent: GDB stub, breakpoints, watchpoints and page walks

This project models the debug agent of the UEFI debugger: the GDB remote stub,
the memory access beneath it, software breakpoints, hardware watchpoints on
X64 and AArch64, the page-table walks that guard memory access, and the
exception handlers around a stop. `dafny verify dfyconfig.toml` checks it.

## What is modelled, and how

- **Bytes and packets.** `Bytes`, `Text` and `Packets` hold the hex codecs, C
  strings, number parsing, framing, the validity rule and the reader, which
  cuts an input stream into items. An input is a finite sequence of bytes and
  pauses; a pause carries the time the clock shows (`Packets.In`).
- **Memory.** Target memory is a sequence of 2^64 bytes; ranges wrap at its end.
  `MemoryAccess.Machine` holds memory and page attributes and runs the DXE and
  MM forms of AccessMemory. A Get, Clear or Set call either fails and changes
  nothing or acts on one page. The copy within a page has as its precondition
  that its attributes, or else the verdict on the page tables, allow it.
- **Breakpoints.** `BreakpointTable` is the 64-slot table over live memory. A
  `View` is what it stands for: the program's own memory and the set of planted
  addresses. `Represents` ties the two. `Mishaps` says what went wrong beneath
  an operation without showing in its reply; `Machine.failed` counts the calls of
  the attribute protocol that reported an error.
- **Watchpoints.** `DebugRegisters` (DR0-DR3 and the bit fields of DR7) and
  `WatchRegisters` (DBGWVR and DBGWCR) are both shown to refine one bounded set
  of keys, in `WatchSet`. `Counting` has what slots with pairwise distinct keys
  share with breakpoints.
- **Page walks.** `PageTree` describes tables as a tree whose leaves own address
  intervals. `PageWalkX64` and `PageWalkAArch64` relate the walks to the trees
  that memory holds, in both directions; `PageAccessX64` and `PageAccessAArch64`
  say which words of memory their verdicts depend on.
- **Commands.** `Commands`, `MemoryCommands`, `Registers` and `Handlers` take
  requests apart in place and build replies in place. `Effects.Effect` says for
  every command what it does to the target and what it sends; `Spelled` and
  `Exchanges` say what that comes to for commands as the debugger writes them.
- **The stub.** `Stub.GdbStub` is a class with the buffers, flags and loops of
  GdbStub.c. Its `trace` records acknowledgements, executed commands and packets.
  `Traces.Play` says what line and acknowledgement state follow from the items
  read; `Sessions` says what whole sessions and whole stops come to.
- **Resuming.** `Contexts` and `Exceptions` hold the saved context, the
  single-step flag, MDSCR_EL1 and the two exception handlers around a stop.

Each method is verified against functions of its input or of the state before;
what the repository promises is then proved of those functions and of runs.

## Where the code differs from what its comments or callers suggest

- AsciiStrnCmp with the delimiter index accepts every prefix of "Cont", the
  empty one included, and stops at a NUL after "Cont" (`Commands.ResumesIffCont`).
- WriteRegisterToContext does not step over the digits of an absent register, so
  the register round trip holds exactly for tables whose absent registers come
  last (`Registers.WritesBackIffAbsentLast`).
- The X64 walk adds the index into the top tables as a byte offset, the
  five-level index is shifted by one bit too few, some addresses are always
  refused, only bits 12 to 35 of a table address are kept, a top table at address
  0 passes for none, and reserved bits are not looked at. It is right exactly
  below 2^39 outside the refused addresses, for tables at non-zero addresses below
  2^36 without reserved bits set (`PageWalkX64.AgreesIffLow`).
- Of all R/W bits on the way only the leaf's counts for the X64 walk, so a page
  below a read-only entry is found writable (`PageWalkX64.WriteVerdict`,
  `PageWalkX64.WriteVerdictMisleads`).
- The AArch64 lookup ignores address bits above its input size
  (`PageWalkAArch64.AgreesIffInputSized`), and it takes a block descriptor at level
  0 for a leaf, which the 4 KiB format does not have
  (`PageWalkAArch64.AgreesIffNoLevel0Block`).
- The AArch64 write test does not look at the access flag or at the write
  permission of table descriptors, and accepts AP 0b11, read-only at every
  exception level. It is right exactly if AP is 0b10, or AP[2] is clear, the
  access flag set and no table descriptor on the way denies writes
  (`PageWalkAArch64.AccessVerdicts`, `PageWalkAArch64.WriteVerdictMisleads`).
- AddSoftwareBreakpoint and RemoveSoftwareBreakpoint ignore that memory could not
  be read or written: an add then takes a slot without planting, a removal frees
  one without lifting (`Breakpoints.RefusedAddMisleads`,
  `Breakpoints.RefusedRemoveMisleads`). They do what they are for exactly as
  `Breakpoints.AddMeetsView` and `Breakpoints.RemoveMeetsView` say. Over runs and
  sessions the claims are for breakpoint commands that come when their memory is
  accessible (`Effects.Reached`), which is a matter of the state before each
  (`Breakpoints.BlockedIffRefused`) and exactly when nothing fails beneath
  (`Sessions.FailedIffOutOfReach`).
- A restoring Set call whose failure is ignored leaves access bits off: over a
  session the attributes end as they began if and only if none fails
  (`Sessions.AttributesAcross`).
- A read of more than 1024 bytes encodes its whole length from a scratch buffer of
  1024, and a write length of 2^63 or more passes the length check because it
  doubles in 64 bits: `MemoryCommands.Perform` says exactly when a command leaves a
  buffer.

## Model

| member | source | states |
|---|---|---|
| Packets.ValidateFrame | DebuggerFeaturePkg/Library/DebugAgent/GdbStub/GdbStub.c:1085-1121 | what SendGdbResponse frames passes the checks of ProcessGdbPacket and gives back exactly the payload |
| Packets.ValidateEnclosed | DebuggerFeaturePkg/Library/DebugAgent/GdbStub/GdbStub.c:1085-1121 | any payload without `#`, enclosed with two checksum digits of either case, is accepted as exactly that payload |
| Packets.CalculateSum8 | DebuggerFeaturePkg/Library/DebugAgent/GdbStub/GdbStub.c:1105 | the loop computes the sum of the bytes modulo 256 |
| Packets.CollectedAgrees | DebuggerFeaturePkg/Library/DebugAgent/GdbStub/GdbStub.c:1155-1170 | when the collecting loop stops normally, the first `#` from index 1 on is third from the end and the packet fits the buffer, so the short-packet rejection cannot happen |
| Packets.ScannedAgree | DebuggerFeaturePkg/Library/DebugAgent/GdbStub/GdbStub.c:1138-1173 | the same for every packet of every stream |
| Packets.BrokenIsCut | DebuggerFeaturePkg/Library/DebugAgent/GdbStub/GdbStub.c:1155-1165 | only a packet without its two checksum digits is given up, at the end of the input or of the buffer, and it is the last item of its round |
| Packets.ScanSpells | DebuggerFeaturePkg/Library/DebugAgent/GdbStub/GdbStub.c:1138-1173 | the items the reader makes of a stream, spelled out in order, are the stream up to the wait that timed out: no byte dropped, invented or moved |
| Packets.StreamRoundTrip | DebuggerFeaturePkg/Library/DebugAgent/GdbStub/GdbStub.c:1138-1173 | framed requests of at most 2048 bytes with any bytes but `$` between them: exactly the payloads are executed, in order, each after one positive acknowledgement; a command that resumes does not stop the reading |
| Packets.ExecutedWasSent | DebuggerFeaturePkg/Library/DebugAgent/GdbStub/GdbStub.c:1085-1119 | conversely, whatever is executed came delimited and with its checksum in the stream |
| Packets.AcceptedEncloses | DebuggerFeaturePkg/Library/DebugAgent/GdbStub/GdbStub.c:1085-1119 | a collected packet that is accepted encloses its command |
| Traces.InputRoundTrip | DebuggerFeaturePkg/Library/DebugAgent/GdbStub/GdbStub.c:1138-1173 | the stream round trip on the trace of the stub: whatever the handlers answer and whatever is sent again, the acknowledgements and executions are those of the payloads, in order |
| Traces.PlayControls | DebuggerFeaturePkg/Library/DebugAgent/GdbStub/GdbStub.c:1111-1172 | acknowledgements and executions are exactly what the items read call for, in order |
| Traces.EveryItemIsAnswered | DebuggerFeaturePkg/Library/DebugAgent/GdbStub/GdbStub.c:1085-1172 | item by item: a packet that encloses some command is acknowledged and that command executed; any other packet and one cut short is refused and nothing executed; no other byte is acknowledged |
| Traces.EveryPacketIsDue | DebuggerFeaturePkg/Library/DebugAgent/GdbStub/GdbStub.c:1142-1150 | item by item: the answers of a command are sent in order; a `-` is answered with the last packet unless a `+` came after it; nothing else is sent |
| Traces.AcknowledgedIff | DebuggerFeaturePkg/Library/DebugAgent/GdbStub/GdbStub.c:1147-1149 | the last packet counts as acknowledged exactly if a `+` came and no answer after it |
| Traces.RetransmitsLast | DebuggerFeaturePkg/Library/DebugAgent/GdbStub/GdbStub.c:1144-1146 | until the last packet is acknowledged or followed by an answer, every `-` is answered with that packet, byte for byte, however many come and whatever noise, broken, refused or unanswered packets come between; nothing else is sent |
| Traces.LastAnswerIsKept | DebuggerFeaturePkg/Library/DebugAgent/GdbStub/GdbStub.c:186-214 | the packet that would be sent again after a command is its last answer, or the one before if it had none |
| Traces.EveryPacketParses | DebuggerFeaturePkg/Library/DebugAgent/GdbStub/GdbStub.c:194-214 | every packet sent or sent again is a framed payload without `#` or NUL, at most 4100 bytes, and validating it gives back the payload |
| Bytes.HexToByte | DebuggerFeaturePkg/Library/DebugAgent/GdbStub/GdbStub.c:225-247 | two hex digits of either case are read as 16 times the first plus the second; on other characters the result is that of the 8-bit arithmetic |
| Bytes.DecodeEncode | DebuggerFeaturePkg/Library/DebugAgent/GdbStub/GdbStub.c:471-472 | bytes to hex digits and back are the same bytes |
| Bytes.EncodeDecode | DebuggerFeaturePkg/Library/DebugAgent/GdbStub/GdbStub.c:443-446 | hex digits to bytes and back are the same digits in lower case |
| Bytes.DelimitersAre | DebuggerFeaturePkg/Library/DebugAgent/GdbStub/GdbStub.c:1106-1170 | the delimiters of the protocol are those characters |
| Text.ParseHexDigits | DebuggerFeaturePkg/Library/DebugAgent/GdbStub/GdbStub.c:417-427 | a string of hex digits parses to the number it writes, or overflows exactly when that needs more than 64 bits |
| Text.ParseHexAround | DebuggerFeaturePkg/Library/DebugAgent/GdbStub/GdbStub.c:417-427 | parsing skips blanks and an x after a zero, stops at the first character that is no hex digit, and takes a lone x for 0 |
| Text.ScanMem8 | DebuggerFeaturePkg/Library/DebugAgent/GdbStub/GdbStub.c:397 | the first match within the length, or none exactly when there is none |
| Commands.ResumesIffCont | DebuggerFeaturePkg/Library/DebugAgent/GdbStub/GdbStub.c:335-362 | a command resumes the target if and only if it is `v`, then a prefix of "Cont" (the empty one included) or "Cont", a NUL and anything up to the delimiter, then `;c` or `;s` |
| Commands.StepsIffSpelled | DebuggerFeaturePkg/Library/DebugAgent/GdbStub/GdbStub.c:346-357 | of the spelled resuming commands, those with `;s` and no other step, those with `;c` and no other continue |
| Commands.VRepliesSpelled | DebuggerFeaturePkg/Library/DebugAgent/GdbStub/GdbStub.c:358-365 | a `v` command that resumes nothing is answered with the vCont actions if it asks for them, else with the empty reply |
| Commands.WriteFitsScratch | DebuggerFeaturePkg/Library/DebugAgent/GdbStub/GdbStub.c:429-441 | the digits of a write that a 2048-byte request can hold are as many as twice its length in 64 bits; unless that doubling wraps, it has at most 1020 bytes, so the chunk loop runs at most once |
| Commands.ParseSpelled | DebuggerFeaturePkg/Library/DebugAgent/GdbStub/GdbStub.c:395-433 | `addr,len` and `addr,len:hex` parse to the numbers and digits they spell |
| Commands.BreakSpelled | DebuggerFeaturePkg/Library/DebugAgent/GdbStub/GdbStub.c:945-958 | `kind,addr,len` asks for a software breakpoint at addr for kind 0, for a watchpoint on writes, reads or both of len bytes at addr for kinds 2, 3, 4, and is unsupported otherwise |
| Commands.BadBreakIff | DebuggerFeaturePkg/Library/DebugAgent/GdbStub/GdbStub.c:927-942 | a breakpoint request is malformed exactly if it has fewer than two commas |
| Commands.QueriesSpelled | DebuggerFeaturePkg/Library/DebugAgent/GdbStub/GdbStub.c:680-705 | the answer to each query by how its text begins, and the empty one for every other |
| Commands.ErrorsAre | DebuggerFeaturePkg/Library/DebugAgent/GdbStub/GdbStub.c:287-300 | the error replies in characters |
| Commands.ConsoleReplyDecodes | DebuggerFeaturePkg/Library/DebugAgent/GdbStub/GdbStub.c:587-589 | a monitor reply is accepted by the packet rules and decodes to the whole console text, whatever its bytes |
| MemoryCommands.SplitRequest | DebuggerFeaturePkg/Library/DebugAgent/GdbStub/GdbStub.c:395-433 | cutting the request in place at its separators yields the request that its text describes, error cases included |
| MemoryCommands.FakedWhere | DebuggerFeaturePkg/Library/DebugAgent/GdbStub/GdbStub.c:459-463 | the addresses that the workaround answers with zeros: below 4 KiB, and the page at 0xfffff78000000000 |
| MemoryCommands.WriteTarget | DebuggerFeaturePkg/Library/DebugAgent/GdbStub/GdbStub.c:440-478 | the chunk loop writes all the decoded bytes, or a prefix up to a page boundary where a page is refused; it runs out of the request buffer if and only if the length is above 1024, which takes a length that wraps when doubled |
| MemoryCommands.ReadTarget | DebuggerFeaturePkg/Library/DebugAgent/GdbStub/GdbStub.c:440-478 | the chunk loop leaves the hex digits of the range (zeros where the workaround applies) in the reply buffer, or fails where a page is refused, and changes no memory; its encoding leaves the scratch buffer if and only if the length is above 1024 and the first chunk is faked or can be read |
| MemoryCommands.Perform | DebuggerFeaturePkg/Library/DebugAgent/GdbStub/GdbStub.c:378-486 | the whole command, whatever its text: it leaves a buffer exactly where StaysInBounds says, and else meets Outcome: memory, reply, and which of success and error it is |
| MemoryCommands.WriteThenRead | DebuggerFeaturePkg/Library/DebugAgent/GdbStub/GdbStub.c:378-486 | after a write answered OK, all other memory is as it was, and a read of the range answers with the same digits in lower case if and only if no page of it is refused by then; none is where refusal depends on attributes |
| MemoryAccess.Machine.AccessPageDxe | DebuggerFeaturePkg/Library/DebugAgent/DebugAgentDxe.c:446-511 | one page in the DXE form: copied or untouched, attributes back if and only if no Set call reported an error; unless a call reported one, done exactly if the page is not read-protected, or without the protocol if its verdict allows it |
| MemoryAccess.Machine.AccessPageMm | DebuggerFeaturePkg/Library/DebugAgent/DebugAgentMm.c:157-212 | one page in the MM form: done exactly if no Get or Clear call reported an error, read-only and read-protected pages included |
| MemoryAccess.Machine.AccessMemory | DebuggerFeaturePkg/Library/DebugAgent/DebugAgentDxe.c:429-514 | on every exit exactly a prefix is copied, as one flat copy, ending at a page boundary unless complete; attributes are what they were if and only if no Set call reported an error, and else some access bits are off; unless a Get or Clear call reported one, it succeeds if and only if the range is Accessible; by its attributes the page copied does not fault, while without the protocol the verdict is taken for that |
| MemoryAccess.Machine.AccessibleMeans | DebuggerFeaturePkg/Library/DebugAgent/DebugAgentDxe.c:457-490 | Accessible: with the protocol no byte is on a read-protected page, in MM always, and else each page is found readable, or writable when it is reached |
| MemoryAccess.Machine.AttributesDecide | DebuggerFeaturePkg/Library/DebugAgent/DebugAgentDxe.c:463-490 | where refusal depends on attributes, it is the same for reads and writes and whatever memory holds |
| MemoryAccess.Machine.WeakerStays | DebuggerFeaturePkg/Library/DebugAgent/DebugAgentDxe.c:495-505 | access bits taken off add up over calls, and are never put back: the attributes end as they began only if no call took any off |
| MemoryAccess.Machine.TablesDecide | DebuggerFeaturePkg/Library/DebugAgent/DebugAgentDxe.c:481-489 | without the protocol, a range that keeps off the words that decide the verdicts on its pages can be written if and only if each page could be written before, and then read if and only if each could be read before |
| Breakpoints.BreakpointTable.AddSoftwareBreakpoint | DebuggerFeaturePkg/Library/DebugAgent/Breakpoint.c:38-72 | the verdict, the new table and the new memory, on accessible memory or not: the read and the write fail beneath exactly when policy stops them or a protocol call fails, the slot is taken either way, and memory shows the instruction only if it could be written |
| Breakpoints.BreakpointTable.RemoveSoftwareBreakpoint | DebuggerFeaturePkg/Library/DebugAgent/Breakpoint.c:82-100 | the same for removal: the slot is freed either way, and the saved bytes are back only if they could be written |
| Breakpoints.AddRefines | DebuggerFeaturePkg/Library/DebugAgent/Breakpoint.c:49-71 | adding plants one address of a set of at most 64, keeps the program's own memory, and fails only for a new address on a full table |
| Breakpoints.RemoveRefines | DebuggerFeaturePkg/Library/DebugAgent/Breakpoint.c:89-99 | removing lifts exactly that address |
| Breakpoints.InstructionsAre | DebuggerFeaturePkg/Library/DebugAgent/AARCH64/DebugAarch64.c:55 | INT3, and BRK with immediate 0xF000 |
| Breakpoints.AddMeetsView | DebuggerFeaturePkg/Library/DebugAgent/Breakpoint.c:60-69 | an add that takes a slot plants its breakpoint if and only if it could read the program's own bytes (or the free slot already held them) and could write the instruction (or it was there already) |
| Breakpoints.RemoveMeetsView | DebuggerFeaturePkg/Library/DebugAgent/Breakpoint.c:89-95 | a removal lifts its breakpoint if and only if the saved bytes could be written, or are the instruction itself |
| Breakpoints.BlockedIffRefused | DebuggerFeaturePkg/Library/DebugAgent/Breakpoint.c:60-95 | on instruction boundaries an add is stopped exactly if it takes a slot and its page is refused for reading or for writing, a removal exactly if it finds its breakpoint and the page is refused for writing |
| Breakpoints.RefusedAddMisleads | DebuggerFeaturePkg/Library/DebugAgent/Breakpoint.c:38-72 | a read-protected page: the add answers TRUE and takes the slot while nothing is saved and memory does not change |
| Breakpoints.RefusedRemoveMisleads | DebuggerFeaturePkg/Library/DebugAgent/Breakpoint.c:82-100 | a page that is refused by now: the removal frees the slot and leaves the instruction in memory |
| Breakpoints.PatchRefines | DebuggerFeaturePkg/Library/DebugAgent/Breakpoint.c:26 | a write that keeps off planted slots goes through to the program's own memory |
| Breakpoints.PeelingShowsPristine | DebuggerFeaturePkg/Library/DebugAgent/Breakpoint.c:20-26 | live memory with the saved bytes laid over it is the program's own memory; with nothing planted, live memory is |
| Breakpoints.RunIsTransparent | DebuggerFeaturePkg/Library/DebugAgent/Breakpoint.c:38-100 | for every run of adds, removes and stores from an empty table, each add and remove coming when policy lets it at its instruction: peeled memory equals the run without breakpoints, live memory is that with the instruction planted, and with none planted any more it is restored exactly |
| WatchSet.AddRefines | DebuggerFeaturePkg/Library/DebugAgent/X64/DebugX64.c:271-308 | add is idempotent, fails only when a new key meets a full set, and adds exactly its key |
| WatchSet.RemoveRefines | DebuggerFeaturePkg/Library/DebugAgent/X64/DebugX64.c:339-353 | remove deletes exactly its key and succeeds if and only if it was held |
| WatchSet.RunRefinesSet | DebuggerFeaturePkg/Library/DebugAgent/X64/DebugX64.c:202-354 | in every run from reset the enabled slots hold pairwise distinct keys, equal a set of at most four, and every verdict is the set's |
| WatchpointsX64.LengthToDebugRegLen | DebuggerFeaturePkg/Library/DebugAgent/X64/DebugX64.c:225-241 | the code watches the length asked for if it is 1, 2, 4 or 8, else one byte |
| WatchpointsX64.KeyMeans | DebuggerFeaturePkg/Library/DebugAgent/X64/DebugX64.c:266-268 | a watch traps writes of the range, and reads exactly if asked to |
| WatchpointsX64.SlotsAreHardware | DebuggerFeaturePkg/Library/DebugAgent/X64/DebugX64.c:29-55 | the slots are what the processor reads off DR0-DR3 and the bits of DR7 |
| WatchpointsX64.DebugRegisters.DebugArchInit | DebuggerFeaturePkg/Library/DebugAgent/X64/DebugX64.c:206-211 | no slot is enabled afterwards, and no bit of DR7 above the low eight changes |
| WatchpointsX64.DebugRegisters.AddWatchpoint | DebuggerFeaturePkg/Library/DebugAgent/X64/DebugX64.c:255-309 | one add step of the slot discipline on DR0-DR3 and the DR7 bit fields, and no bit of another slot changes |
| WatchpointsX64.DebugRegisters.RemoveWatchpoint | DebuggerFeaturePkg/Library/DebugAgent/X64/DebugX64.c:323-354 | one remove step, and no bit of another slot changes |
| WatchpointsAArch64.BasFor | DebuggerFeaturePkg/Library/DebugAgent/AARCH64/DebugAarch64.c:491-493 | as many low ones as bytes watched, at most eight |
| WatchpointsAArch64.SlotIsHardware | DebuggerFeaturePkg/Library/DebugAgent/AARCH64/DebugAarch64.c:33-50 | a slot is what the processor reads off DBGWVR and the bits of DBGWCR |
| WatchpointsAArch64.NewControlIs | DebuggerFeaturePkg/Library/DebugAgent/AARCH64/DebugAarch64.c:507-520 | the control word of a new watchpoint, all bits of it |
| WatchpointsAArch64.WatchRegisters.ClearWatchpoints | DebuggerFeaturePkg/Library/DebugAgent/AARCH64/DebugAarch64.c:300-303 | no slot is enabled afterwards |
| WatchpointsAArch64.WatchRegisters.AddWatchpoint | DebuggerFeaturePkg/Library/DebugAgent/AARCH64/DebugAarch64.c:475-525 | one add step of the same slot discipline on the control and value registers; length 0 is refused; registers of other slots are unchanged |
| WatchpointsAArch64.WatchRegisters.RemoveWatchpoint | DebuggerFeaturePkg/Library/DebugAgent/AARCH64/DebugAarch64.c:539-570 | one remove step; length 0 is refused; registers of other slots are unchanged |
| BitFields.UnpackPack | DebuggerFeaturePkg/Library/DebugAgent/X64/DebugX64.c:29-55 | fields packed into a register read back, for any field widths |
| BitFields.PackUnpack | DebuggerFeaturePkg/Library/DebugAgent/X64/DebugX64.c:29-55 | a register taken apart and packed again is the same register |
| PageTree.OwnerIsDescended | DebuggerFeaturePkg/Library/DebugAgent/X64/AddressCheck.c:82-143 | in any tree of tables, the leaf whose interval holds an address is the one its index digits lead to |
| PageTree.DescendedOwns | DebuggerFeaturePkg/Library/DebugAgent/X64/AddressCheck.c:82-143 | and the leaf that the digits lead to owns an interval that holds the address |
| PageWalkX64.WalkAgrees | DebuggerFeaturePkg/Library/DebugAgent/X64/AddressCheck.c:53-144 | for addresses below 2^39 outside the exclusions, 4- and 5-level, and tables at non-zero addresses below 2^36 without reserved bits: not valid if and only if no present leaf owns the address, else that leaf's R/W bit |
| PageWalkX64.AgreesIffLow | DebuggerFeaturePkg/Library/DebugAgent/X64/AddressCheck.c:17-90 | of the addresses the top table covers, the walk is right for every tree of tables at exactly those below 2^39 that are not excluded, and only if no table is at address 0 or at 2^36 or above and no present entry has reserved bits set: in every other case some tables mislead it |
| PageWalkX64.BeyondMisleads | DebuggerFeaturePkg/Library/DebugAgent/X64/AddressCheck.c:17 | a mapped page whose table is at 2^36 is not found, because only bits 12 to 35 of a table address are kept |
| PageWalkX64.WriteVerdict | DebuggerFeaturePkg/Library/DebugAgent/X64/AddressCheck.c:107-143 | where the walk is right a mapped page is readable, and its write verdict is that of all R/W bits on the way if and only if the leaf is read-only or nothing above it is |
| PageWalkX64.WriteVerdictMisleads | DebuggerFeaturePkg/Library/DebugAgent/X64/AddressCheck.c:107-143 | a page found writable below a read-only entry |
| PageWalkX64.PageVaries | DebuggerFeaturePkg/Library/DebugAgent/X64/AddressCheck.c:66-72 | the verdict varies inside a page only at the first byte of page 0 and of page 0x87c00000 |
| PageWalkX64.PageUniform | DebuggerFeaturePkg/Library/DebugAgent/X64/AddressCheck.c:66-144 | a byte found readable has the verdict of every later byte of its page |
| PageAccessX64.PagesDecideBytes | DebuggerFeaturePkg/Library/DebugAgent/DebugAgentDxe.c:481-489 | testing the lowest accessed byte of each page decides the same as testing every byte |
| PageAccessX64.DbgReadMemory | DebuggerFeaturePkg/Library/DebugAgent/DebugAgentDxe.c:527-534 | without the attribute protocol a read succeeds if and only if every byte is readable, and then delivers the bytes |
| PageAccessX64.WalkKept | DebuggerFeaturePkg/Library/DebugAgent/X64/AddressCheck.c:53-144 | the verdict on an address depends on the table entries read for it and on nothing else in memory |
| PageWalkAArch64.RootCovers | DebuggerFeaturePkg/Library/DebugAgent/AARCH64/DebugAarch64.c:405-407 | the root table covers exactly 2^(64 - T0SZ) bytes |
| PageWalkAArch64.AgreesIffNoLevel0Block | DebuggerFeaturePkg/Library/DebugAgent/AARCH64/DebugAarch64.c:331-415 | for 16 <= T0SZ <= 39 and every address below 2^(64 - T0SZ), the recursion finds a leaf's attributes exactly when that leaf owns the address, if and only if it does not come across a level-0 block, which the format does not have |
| PageWalkAArch64.AgreesIffInputSized | DebuggerFeaturePkg/Library/DebugAgent/AARCH64/DebugAarch64.c:350-370 | the lookup is right for every tree of tables without level-0 blocks exactly at the addresses below 2^(64 - T0SZ) |
| PageWalkAArch64.AccessVerdicts | DebuggerFeaturePkg/Library/DebugAgent/AARCH64/DebugAarch64.c:421-428 | the verdict on a mapped address is about its leaf alone: device memory is refused; on other memory the read verdict is the architecture's (access flag set), and the write verdict (access flag set, AP[2] clear and no table descriptor above denying writes) if and only if AP is 0b10, or all three hold |
| PageWalkAArch64.BlockVerdicts | DebuggerFeaturePkg/Library/DebugAgent/AARCH64/DebugAarch64.c:421-428 | the verdict below block descriptors of every AP, with and without access flag, device memory and not, in memory |
| PageWalkAArch64.CutOff | DebuggerFeaturePkg/Library/DebugAgent/AARCH64/DebugAarch64.c:395-401 | an address can be accessible, for some tables, exactly if it is below 0xfffff00000000000 |
| PageWalkAArch64.WriteVerdictMisleads | DebuggerFeaturePkg/Library/DebugAgent/AARCH64/DebugAarch64.c:354-428 | three pages wrongly found writable, in memory: AP 0b11, AP 0b00 with the access flag clear, and a leaf in order below a table descriptor that denies writes |
| PageWalkAArch64.UnmappedIsRefused | DebuggerFeaturePkg/Library/DebugAgent/AARCH64/DebugAarch64.c:399-419 | an address that no leaf owns is refused, unless a level-0 block in its place grants the access |
| PageAccessAArch64.LookupKept | DebuggerFeaturePkg/Library/DebugAgent/AARCH64/DebugAarch64.c:331-372 | the lookup of an address depends on the descriptors read for it and on nothing else in memory |
| Registers.ReadRegisterFromContext | DebuggerFeaturePkg/Library/DebugAgent/GdbStub/GdbStub.c:717-741 | two digits a byte of the register, or zeros if it is absent |
| Registers.WriteRegisterToContext | DebuggerFeaturePkg/Library/DebugAgent/GdbStub/GdbStub.c:754-783 | the register's bytes replaced, nothing else; short input is an error and changes nothing |
| Registers.ReadRegisters | DebuggerFeaturePkg/Library/DebugAgent/GdbStub/GdbStub.c:823-827 | the digits of all registers in table order |
| Registers.WriteRegisters | DebuggerFeaturePkg/Library/DebugAgent/GdbStub/GdbStub.c:799-807 | registers written in table order until input runs short |
| Registers.ReadAllAt | DebuggerFeaturePkg/Library/DebugAgent/GdbStub/GdbStub.c:823-827 | the digits of register i follow those of the registers before it |
| Registers.WriteAllOkIff | DebuggerFeaturePkg/Library/DebugAgent/GdbStub/GdbStub.c:799-807 | `G` succeeds exactly if each register finds digits enough after those of the present ones before it |
| Registers.ShortWrites | DebuggerFeaturePkg/Library/DebugAgent/GdbStub/GdbStub.c:799-807 | a `G` that runs short at a register has written those before it |
| Registers.WriteBackReadAll | DebuggerFeaturePkg/Library/DebugAgent/GdbStub/GdbStub.c:792-831 | feeding the reply of `g` back through `G` succeeds and leaves the context as it was, for tables with disjoint present registers and absent ones last |
| Registers.ReadBackWriteAll | DebuggerFeaturePkg/Library/DebugAgent/GdbStub/GdbStub.c:792-831 | after `G` with digits for every register, `g` returns those of the present registers in lower case, then zeros |
| Registers.WritesBackIffAbsentLast | DebuggerFeaturePkg/Library/DebugAgent/GdbStub/GdbStub.c:771-782 | the round trip holds for every context if and only if absent registers come last, because an absent register does not consume its digits |
| Registers.X64TableQualifies | DebuggerFeaturePkg/Library/DebugAgent/GdbStub/GdbStubX64.c:26-74 | the shipped X64 table round-trips and its reply fits the buffer |
| Registers.AArch64TableQualifies | DebuggerFeaturePkg/Library/DebugAgent/GdbStub/GdbStubAarch64.c:22-60 | the shipped AArch64 table round-trips and its reply fits the buffer |
| Registers.TablesByName | DebuggerFeaturePkg/Library/DebugAgent/GdbStub/GdbStubX64.c:26-74 | every register of the tables is the field of its name in the context |
| Handlers.CutString | DebuggerFeaturePkg/Library/DebugAgent/GdbStub/GdbStub.c:877-884 | a string cut in place at a byte leaves the text before it and the text after it |
| Handlers.WriteNamedRegister | DebuggerFeaturePkg/Library/DebugAgent/GdbStub/GdbStub.c:869-901 | `index=value` writes that register or answers with the right error |
| Handlers.ParseVCommand | DebuggerFeaturePkg/Library/DebugAgent/GdbStub/GdbStub.c:335-362 | the name is cut at its delimiter in place and the action is the one the text calls for; the delimiter is `;`, `?` or NUL |
| Handlers.ParseBreakpoint | DebuggerFeaturePkg/Library/DebugAgent/GdbStub/GdbStub.c:927-958 | `type,address,length` cut in place at two commas yields the request its text describes, error cases included |
| Handlers.ConvertResponseToHex | DebuggerFeaturePkg/Library/DebugAgent/GdbStub/GdbStub.c:258-281 | hex digits of the string, cut only where two more and the NUL would not fit, then a NUL |
| Contexts.Stepped | DebuggerFeaturePkg/Library/DebugAgent/X64/DebugX64.c:175-180 | the step flag is set and the pc is not touched |
| Contexts.SteppedBits | DebuggerFeaturePkg/Library/DebugAgent/AARCH64/DebugAarch64.c:215-227 | bit 8 of Rflags is set; on AArch64 bit 21 of SPSR is set and bit 9 cleared; no other bit of the context changes |
| Contexts.MdscrBits | DebuggerFeaturePkg/Library/DebugAgent/AARCH64/DebugAarch64.c:229-232 | bits 0, 13 and 15 of MDSCR_EL1 are set, and bit 0 is cleared on a step exception; no other bit changes |
| Contexts.FieldsAre | DebuggerFeaturePkg/Library/DebugAgent/X64/DebugX64.c:112-124 | the fields that the handlers touch are where the context has them, and are the pc and flags that the debugger sees |
| Contexts.AddSingleStep | DebuggerFeaturePkg/Library/DebugAgent/AARCH64/DebugAarch64.c:215-227 | the flag bits of the saved context in place and those of MDSCR_EL1, on both architectures |
| Stub.GdbStub.SendGdbResponse | DebuggerFeaturePkg/Library/DebugAgent/GdbStub/GdbStub.c:182-215 | the packet put on the wire is the frame of the reply, whether it was built in the response buffer or elsewhere; NULL repeats the last packet; the response buffer holds what was sent |
| Stub.GdbStub.FrameInPlace | DebuggerFeaturePkg/Library/DebugAgent/GdbStub/GdbStub.c:194-209 | the buffer ends up holding the frame around the payload that was already in it |
| Stub.GdbStub.ReadGeneralRegisters | DebuggerFeaturePkg/Library/DebugAgent/GdbStub/GdbStub.c:817-831 | one reply, the digits of all registers |
| Stub.GdbStub.WriteGeneralRegisters | DebuggerFeaturePkg/Library/DebugAgent/GdbStub/GdbStub.c:792-810 | the context and the reply that the register specification gives |
| Stub.GdbStub.ReadRegister | DebuggerFeaturePkg/Library/DebugAgent/GdbStub/GdbStub.c:840-860 | the digits of the register asked for, or the bad-index error |
| Stub.GdbStub.WriteRegister | DebuggerFeaturePkg/Library/DebugAgent/GdbStub/GdbStub.c:869-901 | the context and the reply for `index=value` |
| Stub.GdbStub.ProcessMemoryCommand | DebuggerFeaturePkg/Library/DebugAgent/GdbStub/GdbStub.c:378-486 | memory, attributes and reply of a memory command |
| Stub.GdbStub.ProcessVCommand | DebuggerFeaturePkg/Library/DebugAgent/GdbStub/GdbStub.c:327-366 | reply, resume, or resume with the step flag set |
| Stub.GdbStub.ProcessMonitorCmd | DebuggerFeaturePkg/Library/DebugAgent/GdbStub/GdbStub.c:496-591 | console output as an `O` packet and then OK, or one error |
| Stub.GdbStub.ProcessQuery | DebuggerFeaturePkg/Library/DebugAgent/GdbStub/GdbStub.c:680-705 | the answer that the query's text calls for |
| Stub.GdbStub.ProcessBreakpoint | DebuggerFeaturePkg/Library/DebugAgent/GdbStub/GdbStub.c:912-975 | one software breakpoint or one watchpoint comes or goes, and the reply is the verdict; errors change nothing |
| Stub.GdbStub.ExecuteGdbCommand | DebuggerFeaturePkg/Library/DebugAgent/GdbStub/GdbStub.c:987-1059 | every command: target afterwards, packets sent, and whether the target is to run (Effect) |
| Stub.GdbStub.ValidatePacket | DebuggerFeaturePkg/Library/DebugAgent/GdbStub/GdbStub.c:1085-1109 | the checks in the buffer decide as Validate does |
| Stub.GdbStub.ProcessGdbPacket | DebuggerFeaturePkg/Library/DebugAgent/GdbStub/GdbStub.c:1068-1121 | an accepted packet is acknowledged, noted and executed; any other is refused and changes nothing |
| Stub.GdbStub.CollectPacket | DebuggerFeaturePkg/Library/DebugAgent/GdbStub/GdbStub.c:1155-1170 | the inner loop fills the buffer as Collect says, and gives up on a full buffer or a timeout |
| Stub.GdbStub.ProcessInputData | DebuggerFeaturePkg/Library/DebugAgent/GdbStub/GdbStub.c:1131-1177 | acts on every item up to the first pause and on no more: line, target and run flag follow from them; terminates; the last packet is in the buffer whenever an item is begun |
| Stub.GdbStub.ReportEntryToDebugger | DebuggerFeaturePkg/Library/DebugAgent/GdbStub/GdbStub.c:1228-1265 | one stop: the stop reply, then exactly what the items call for; it ends only by a resuming command of this stop, or when the clock is past its entry by the timeout of a breakpoint stop, with no valid packet received in any stop; and at the first such poll if nothing comes |
| Spelled.ContinueOrStep | DebuggerFeaturePkg/Library/DebugAgent/GdbStub/GdbStub.c:346-357 | `vCont;c` changes nothing; `vCont;s` sets the step flag, on AArch64 also in MDSCR_EL1, and nothing else; neither is answered |
| Spelled.VAnswers | DebuggerFeaturePkg/Library/DebugAgent/GdbStub/GdbStub.c:327-366 | what any other `v` command is answered |
| Spelled.InsertBreakpoint | DebuggerFeaturePkg/Library/DebugAgent/GdbStub/GdbStub.c:945-954 | `Z0,addr,len` on accessible memory plants exactly addr, and is answered OK exactly if it was planted or there is room |
| Spelled.LiftBreakpoint | DebuggerFeaturePkg/Library/DebugAgent/GdbStub/GdbStub.c:945-954 | `z0,addr,len` on accessible memory lifts exactly addr, and is answered OK exactly if it was planted |
| Spelled.RefusedBreakpoint | DebuggerFeaturePkg/Library/DebugAgent/GdbStub/GdbStub.c:927-968 | an unknown kind or a missing comma gets its error and changes nothing |
| Spelled.InsertWatchpoint | DebuggerFeaturePkg/Library/DebugAgent/GdbStub/GdbStub.c:955-964 | `Z2`, `Z3` and `Z4` put a watch on writes, reads or both of the range spelled into the slots |
| Spelled.LiftWatchpoint | DebuggerFeaturePkg/Library/DebugAgent/GdbStub/GdbStub.c:955-964 | `z2`, `z3` and `z4` take exactly that watch out |
| Spelled.EmptyWatchpoint | DebuggerFeaturePkg/Library/DebugAgent/AARCH64/DebugAarch64.c:487-489 | on AArch64 a watchpoint of length 0 is refused |
| Spelled.ReadMemory | DebuggerFeaturePkg/Library/DebugAgent/GdbStub/GdbStub.c:378-486 | `m addr,len` answers the bytes there exactly if they are accessible, zeros where the workaround applies |
| Spelled.WriteMemory | DebuggerFeaturePkg/Library/DebugAgent/GdbStub/GdbStub.c:378-486 | `M addr,len:hex` writes all the bytes and answers OK exactly if they are accessible |
| Spelled.MemoryErrors | DebuggerFeaturePkg/Library/DebugAgent/GdbStub/GdbStub.c:395-433 | a memory command without its separators, with a number beyond 64 bits or with the wrong number of digits gets its error and changes nothing |
| Spelled.PlainAnswers | DebuggerFeaturePkg/Library/DebugAgent/GdbStub/GdbStub.c:1026-1056 | what the commands without arguments and unknown commands are answered |
| Spelled.QueryIsAnswered | DebuggerFeaturePkg/Library/DebugAgent/GdbStub/GdbStub.c:680-705 | what every query is answered, in characters |
| Effects.CommandIsTransparent | DebuggerFeaturePkg/Library/DebugAgent/GdbStub/GdbStub.c:987-1059 | every command, the memory of a breakpoint command being accessible, keeps memory and table standing for the program's own memory; only `M` changes that, by the bytes it puts into live memory |
| Effects.FailsIffOutOfReach | DebuggerFeaturePkg/Library/DebugAgent/Breakpoint.c:38-100 | the memory accesses of a command's breakpoint code fail if and only if policy stops them in the state before it or a protocol call fails |
| Effects.CommandKeepsSet | DebuggerFeaturePkg/Library/DebugAgent/GdbStub/GdbStub.c:955-974 | `Z` and `z` do to the slots what they do to the bounded set, and the reply is its verdict; no other command touches them |
| Sessions.SessionIsTransparent | DebuggerFeaturePkg/Library/DebugAgent/GdbStub/GdbStub.c:1138-1173 | the same over every session whose breakpoint commands come when their memory is accessible, with breakpoints set and lifted in any order |
| Sessions.FailedIffOutOfReach | DebuggerFeaturePkg/Library/DebugAgent/GdbStub/GdbStub.c:1138-1173 | breakpoint code fails beneath somewhere in a session if and only if some breakpoint command comes when its memory is not accessible |
| Sessions.ReachedFromStart | DebuggerFeaturePkg/Library/DebugAgent/GdbStub/GdbStub.c:1138-1173 | where refusal depends on attributes, it is enough that no breakpoint address is refused before the session starts and no protocol call fails in a breakpoint command |
| Sessions.ReachedFromTables | DebuggerFeaturePkg/Library/DebugAgent/GdbStub/GdbStub.c:1138-1173 | where refusal goes by page tables, it is enough that every breakpoint page can be read and written before the session starts, and that no command of it touches the words that decide those verdicts |
| Sessions.AccessibleX64 | DebuggerFeaturePkg/Library/DebugAgent/X64/AddressCheck.c:53-144 | under the X64 walk those words are the table entries read for the address, and a writable page will do |
| Sessions.AccessibleAArch64 | DebuggerFeaturePkg/Library/DebugAgent/AARCH64/DebugAarch64.c:331-428 | under the AArch64 lookup they are the descriptors read for it, and the access flag must be set too |
| Sessions.PlainUnwritten | DebuggerFeaturePkg/Library/DebugAgent/GdbStub/GdbStub.c:1138-1173 | a session without memory writes leaves the program's own memory as it was |
| Sessions.SessionKeepsSet | DebuggerFeaturePkg/Library/DebugAgent/GdbStub/GdbStub.c:1138-1173 | over every session the watchpoint slots are the bounded set the commands call for |
| Sessions.AttributesAcross | DebuggerFeaturePkg/Library/DebugAgent/GdbStub/GdbStub.c:1138-1173 | over every session, all page attributes end as they began if and only if no Set call reported an error, and the turns that tell of failed calls are those in which one did |
| Sessions.ResumeSafety | DebuggerFeaturePkg/Library/DebugAgent/GdbStub/GdbStub.c:1254-1265 | a stop ends if a command among its items resumes, and only then or when its timeout passes with no valid packet in this stop or any before |
| Sessions.TimeoutEnds | DebuggerFeaturePkg/Library/DebugAgent/GdbStub/GdbStub.c:1254-1264 | with no debugger there, a stop that has a timeout ends at the first poll not before it and no earlier; one that has none goes on waiting |
| Sessions.FollowsConnects | DebuggerFeaturePkg/Library/DebugAgent/GdbStub/GdbStub.c:1111-1112 | a debugger counts as connected from the first valid packet on, for good |
| Sessions.ResumesSpelled | DebuggerFeaturePkg/Library/DebugAgent/GdbStub/GdbStub.c:346-357 | the resuming command, spelled out, for all commands |
| Sessions.StopControls | DebuggerFeaturePkg/Library/DebugAgent/GdbStub/GdbStub.c:1254-1265 | a whole stop acknowledges and executes exactly what its items call for |
| Sessions.StopAnswers | DebuggerFeaturePkg/Library/DebugAgent/GdbStub/GdbStub.c:1254-1265 | and item by item each packet is acknowledged and executed or refused as it should be |
| Exchanges.MemoryRoundTrip | DebuggerFeaturePkg/Library/DebugAgent/GdbStub/GdbStub.c:378-486 | `M addr,len:hex` answered OK, then `m addr,len`: the bytes in memory, the rest of the target as it was, and the same digits in lower case if and only if no page of the range is refused by then; none is where refusal depends on attributes |
| Exchanges.MemoryRoundTripByTables | DebuggerFeaturePkg/Library/DebugAgent/GdbStub/GdbStub.c:378-486 | with page tables to go by, for a range that keeps off them: written only if each page could be written before, and read back if and only if each could be read before |
| Exchanges.MemoryRoundTripX64 | DebuggerFeaturePkg/Library/DebugAgent/GdbStub/GdbStub.c:378-486 | under the X64 walk, the same digits always, for a range that keeps off the tables that map it |
| Exchanges.MemoryRoundTripAArch64 | DebuggerFeaturePkg/Library/DebugAgent/GdbStub/GdbStub.c:378-486 | under the AArch64 lookup, the same digits if and only if the access flag is set in the leaf of every page of such a range |
| Exchanges.RegistersWrittenBack | DebuggerFeaturePkg/Library/DebugAgent/GdbStub/GdbStub.c:792-831 | `g`, then `G` with its reply: OK, and the target is unchanged |
| Exchanges.RegisterRoundTrip | DebuggerFeaturePkg/Library/DebugAgent/GdbStub/GdbStub.c:840-901 | `P i=h` puts the bytes into register i and touches nothing else; then `p i` answers the same digits in lower case, or zeros if the register is absent |
| Exchanges.RegisterErrors | DebuggerFeaturePkg/Library/DebugAgent/GdbStub/GdbStub.c:840-901 | a missing `=`, an index out of range and too few digits get their errors and change nothing |
| Exchanges.RegistersReadBack | DebuggerFeaturePkg/Library/DebugAgent/GdbStub/GdbStub.c:792-831 | `G` with any digits, then `g`: the present part in lower case, then zeros |
| Exceptions.HandleX64 | DebuggerFeaturePkg/Library/DebugAgent/X64/DebugX64.c:92-166 | one whole stop (StopsX64): the target entering the session, the session, and the context on leaving it |
| Exceptions.HandleAArch64 | DebuggerFeaturePkg/Library/DebugAgent/AARCH64/DebugAarch64.c:106-206 | one whole stop (StopsAArch64), with the exception class taken on entry and the software step bit of MDSCR_EL1 cleared on a step exception |
| Exceptions.HitRemoveResume | DebuggerFeaturePkg/Library/DebugAgent/X64/DebugX64.c:143-159 | a debugger that leaves the pc where it is resumes where it stopped, unless the breakpoint instruction is still found there, because planted or the program's own; once it is lifted, memory there holds the program's own bytes; both architectures |
| Exceptions.HitRemoveResumeUnwritten | DebuggerFeaturePkg/Library/DebugAgent/X64/DebugX64.c:143-159 | in particular after a debugger that writes no registers |
| Exceptions.TrapIsTakenBack | DebuggerFeaturePkg/Library/DebugAgent/X64/DebugX64.c:118-125 | the pc of a one-byte trap is back at the breakpoint |
| Exceptions.HitX64 | DebuggerFeaturePkg/Library/DebugAgent/X64/DebugX64.c:92-166 | the X64 handler from trap to leaving: with the pc not moved, execution goes on at the breakpoint address, on the program's own bytes, once the breakpoint is lifted, and after the instruction if it is still there |
| Exceptions.HitAArch64 | DebuggerFeaturePkg/Library/DebugAgent/AARCH64/DebugAarch64.c:106-206 | the same for the AArch64 handler and a breakpoint instruction |
| Exceptions.StepIsAskedFor | DebuggerFeaturePkg/Library/DebugAgent/X64/DebugX64.c:112-116 | after a step exception the target steps again if and only if a step was asked for in the session: by the trap flag on X64 if no register write changes it, by MDSCR_EL1 on AArch64 whatever is written |
| Exceptions.SoftwareStepAcross | DebuggerFeaturePkg/Library/DebugAgent/AARCH64/DebugAarch64.c:106-206 | over a session the software step bit of MDSCR_EL1 is set if and only if it was, or a step was asked for |
| Exceptions.StepStopX64 | DebuggerFeaturePkg/Library/DebugAgent/X64/DebugX64.c:112-116 | the X64 handler, after a debug exception: left with the trap flag set exactly if a step was asked for |
| Exceptions.StepStopAArch64 | DebuggerFeaturePkg/Library/DebugAgent/AARCH64/DebugAarch64.c:167-176 | the AArch64 handler: after classes 0x32 and 0x33 the target steps again exactly if a step was asked for, after others it also goes on stepping |
| Exceptions.OthersAreLeft | DebuggerFeaturePkg/Library/DebugAgent/X64/DebugX64.c:143-159 | after any exception but a breakpoint instruction the context is left as the debugger has it |
| Exceptions.EnteredBits | DebuggerFeaturePkg/Library/DebugAgent/X64/DebugX64.c:112-125 | entering on X64, bit by bit |
| Exceptions.ClassesAre | DebuggerFeaturePkg/Library/DebugAgent/AARCH64/DebugAarch64.c:157-168 | the exception classes that count as breakpoints and steps |
| Exceptions.ContextAcross | DebuggerFeaturePkg/Library/DebugAgent/GdbStub/GdbStub.c:987-1059 | a session without register writes changes the context only by the step flag |

## Left out

- Stub.GdbStub.ExecuteGdbCommand: what happens once a command has left a buffer is not modelled; excluded are exactly the commands outside `MemoryCommands.StaysInBounds`, which `MemoryCommands.Perform` shows to leave one unless a protocol call fails first: reads of more than 1024 bytes whose first chunk is there, and `M` with a length of 2^63 or more.
- Stub.GdbStub.ProcessMemoryCommand: the same exclusion, and so in ProcessGdbPacket.
- Stub.GdbStub.ProcessInputData: which pages are refused may change while it reads, so here, in ReportEntryToDebugger and in the handlers all reads of more than 1024 bytes are excluded (`Commands.InBounds`).
- Stub.GdbStub.ProcessQuery: the text of the target description, of the register list and of monitor output is any text without `#` or NUL that fits, because AsciiSPrint is not part of this model.
- Stub.GdbStub.ProcessMonitorCmd: which text a monitor command prints, and its side effects (break on module load, reboot on continue), are not modelled.
- Stub.GdbStub.ReportEntryToDebugger: mRebootOnContinue and DebugReboot, which do not come back where they are implemented; `r` and `R` answer as when the reboot returns.
- Stub.GdbStub.DebugReadByte: the polling loop against the clock becomes a pause in the input; the time it takes is not modelled, and the clock does not wrap.
- Exceptions.HandleAArch64: instruction-cache maintenance, barriers, DAIF and the OS lock are hardware effects outside the model; so is the watchdog in both handlers.
- Breakpoints.BreakpointTable.AddSoftwareBreakpoint: the data buffers handed to memory access are assumed not to be part of target memory; InvalidateInstructionCacheRange is not modelled.
- WatchpointsAArch64.WatchRegisters.AddWatchpoint: debug registers are plain cells, on X64 too; that hardware keeps the low two bits of DBGWVR and some bits of DR7 fixed is not modelled.
- MemoryAccess.Machine.AccessMemory: the verdicts of IsPageReadable and IsPageWritable are functions of memory and address; the walks in `PageWalkX64` and `PageWalkAArch64` are two such functions. Without the attribute protocol it is assumed, not proved, that an access they allow does not fault; where they mislead it does.
- PageWalkAArch64.AgreesIffNoLevel0Block: T0SZ below 16 (52-bit addresses) and above 39 are outside the claim.
- PageWalkAArch64.AccessVerdicts: permissions go by the tables alone; hardware management of the access flag and dirty state, PAN, disabled hierarchical permissions and memory types other than by attribute index are not modelled.
- PageWalkX64.WriteVerdict: supervisor accesses with CR0.WP set; protection keys, SMAP and physical address widths below 52 are not modelled.
- Registers.X64TableQualifies: names and type strings of registers; field offsets are those of EFI_SYSTEM_CONTEXT_X64 and EFI_SYSTEM_CONTEXT_AARCH64 in the UEFI specification, whose header is not part of this model.
- Text.ParseHexDigits: the BaseLib string functions (AsciiStrHexToUint64S, AsciiStrHexToUintn, AsciiStrnCmp, ScanMem8, AsciiStrLen, AsciiStrHexToBytes) are modelled from their definitions in EDK II, which are not part of this repository.
- The PEI phase checks the first page and copies in one go; it has no loop to prove anything about.
- DebuggerPollInput, DebuggerInitialBreakpoint and the break-in character: wrappers around a breakpoint instruction.
- The transport, timer, watchdog and log-control libraries: thin wrappers over hardware.
- Event and protocol registration, module-load notification and InitializeDebugAgent: boot-service plumbing.
- GdbReadMsr and GdbDumpSystemRegisters: register reads formatted as text.
- The Python scripts for the debugger side: user interface and structure tables.
