# ZipVersa: a verified model

ZipVersa is an FPGA design with its host tools, its simulation harness and its board software.
This project models the parts of it that are hard to get right, in Dafny, and proves what they are for.
Everything is checked with `dafny verify dfyconfig.toml`.

| area | modules |
|---|---|
| compressed debug bus, host and FPGA end | `SixBit`, `WbuDevice`, `TtyCode`, `TtyRead`, `TtyReply`, `TtySession`, `TtyStray`, `TtyBus`, `TtyWire` |
| serial line | `UartLine`, `UartSim` |
| flash device, controller wires and driver | `FlashChip`, `FlashRuns`, `FlashSim`, `FlashWire`, `FlashSession`, `FlashStatus`, `FlashReads`, `FlashXip`, `FlashPort`, `FlashDriver`, `FlashWriter`, `FlashCut`, `FlashDrvr` |
| FFT upload over UDP | `FftWire`, `FftProtocol`, `FftRuns`, `FftRounds`, `FftNodes` |
| arithmetic | `Divide`, `Multiply`, `Rounding`, `Checksum` |
| packets, clocks, memory, management interface | `Packets`, `Clocks`, `ClockBench`, `MemSim`, `Mdio`, `MdioSim` |
| shared | `Arith`, `Bitwise`, `Fold`, `Runs` |

Main results:

* Over every session of bus calls, the compressed debug bus performs exactly the reads and writes of the plain loops that `devbus.h` says the calls are equivalent to, in order, and every read returns what the bus answered. The FPGA end is the one in `rtl/wbubus`.
* Two UARTs back to back deliver every byte, in order, for every divisor and frame format, however closely the frames follow one another.
* `FLASHDRVR::write` is proved down to the wires. Each command is clocked bit by bit into the flash device, the busy wait is proved to end, and each byte read back comes out nibble by nibble. The memory ends up exactly as specified, byte for byte, unless the device ends the program, and it is proved exactly when it does.
* In every run of the flash device its memory changes only at the end of a command it accepted while it was allowed to, and two changes are always further apart than the first of them takes.
* The FFT upload is safe over any network, and over a good network it completes if and only if a stated condition holds.
* 64-bit division is right on all its paths, and the Internet checksum has the same value in its three forms, wherever their sums fit.

Where the code does not do what it is meant to, the model keeps what the code does. A lemma shows the case, and another says exactly when the code is right:

* A write of no words moves the host's idea of the address but sends nothing (`TtyCode.EmptyWriteDesynchronises`, `TtyCode.EmptyWriteMisdirects`).
* A request for eight words without increment is the very character that ends a write. A `readz` of n words is served in full if and only if n mod 512 is not 8 (`TtyRead.ReadCallRefinesLoop`).
* A write that moves the address makes the host forget its read table while the device keeps its own, so a later read may return stale words (`TtySession.MovingWriteLosesTable`, `TtySession.StaleWordReturned`).
* The address difference is unsigned, so a step back by one word takes six characters where two would do (`TtyCode.AddressCodeShortestIff`, `TtyCode.BackwardStepIsLong`).
* `lclreadcode` copies in the wrong direction. It keeps the codes it read if and only if no code follows a stray character (`TtyStray.SweepKeepsCodesIff`).
* `devbus.h` says that `readi` and `writei` use address a+i. The code uses a+4i, and so does the model.
* A UART with fewer than eight data bits reports parity and stop bits as data (`UartLine.EchoIsIdentityIff`).
* `m_evenp` makes the number of ones odd (`UartSim.ParityCounts`).
* The flash device asserts that a sector to be erased lies in the first 4 MiB of its 16. A write therefore ends the program if and only if some sector from there on needs an erase (`FlashDrvr.Driver.Write`, `FlashDrvr.QuarterBlocks`).
* A page program or a sector erase cut short before its third address byte is carried out where the last one went, with stale data. The bytes sent decide what happens if and only if there are at least three (`FlashCut.BytesDecideIff`).
* A device restart in the middle of an upload stalls the upload for ever (`FftRounds.RestartStalls`). A host process that starts again reuses its transfer ids, and two transfers mix (`FftRounds.ReusedIdMixes`).
* `__divdi3` answers the most negative number for the most negative number divided by -1 (`Divide.Divdi3`).
* The C checksum and the assembly agree on all arrays of n words if and only if n is from 1 to 32768 (`Checksum.FormsAgreeIff`).
* `rndbits` rounds to nearest for every input if and only if the width is at most 63 and at most 32 bits are cut off (`Rounding.RndBitsNearestIff`).
* The first tick of the test bench meets its assert if and only if no half period is 2 ps and the first clock's is not 2 modulo 2^32: the minimum is kept in 32 bits (`Clocks.FirstTickAsserts`, `Clocks.WideClockFails`).
* The management slave needs 33 ones to synchronise. The standard's preamble has 32 (`Mdio.PreambleSyncs`).
* It ends the program on a write frame whose second turnaround bit is set (`Mdio.FrameTaken`, `Mdio.BadTurnaround`).

## Model

| member | source | states |
|---|---|---|
| SixBit.AlphabetRoundTrip | sw/host/ttybus.cpp:102-132 | charenc and chardec are inverse both ways: every six-bit value survives, and every code character is the image of its value |
| SixBit.DigitsVal | sw/host/ttybus.cpp:166-173 | the six-bit digits of a number read back as that number, modulo the width of the field |
| TtyWire.AlphabetIs | sw/host/ttybus.cpp:102-132 | the characters by their ASCII codes: digits, upper case, lower case, at sign, percent sign |
| TtyWire.WriteOnWire | sw/host/ttybus.cpp:227-324 | the first call of a fresh host, a write of 0x12345678 to 0x1000, is the line AG0OID5Pu |
| TtyWire.RequestsOnWire | sw/host/ttybus.cpp:474-491 | requests for one word, for eight with increment and for 512, as characters |
| TtyWire.CommandsOnWire | rtl/wbubus/wbureadcw.v:78-137 | what the device makes of one codeword of each kind |
| TtyWire.SinglesOnWire | sw/host/ttybus.cpp:614-633 | the reply codewords of one character, 0 to 7 |
| TtyWire.ReferencesOnWire | sw/host/ttybus.cpp:682-709 | the nearest and the farthest table reference of each kind, as characters |
| TtyWire.ValuesOnWire | sw/host/ttybus.cpp:634-723 | an address of two digits and a raw word coming back, as characters |
| WbuDevice.RunCodeword | rtl/wbubus/wbureadcw.v:78-137 | codewords delimit themselves: their characters are exactly one command to the device, whatever follows |
| WbuDevice.RunNewline | rtl/wbubus/wbureadcw.v:78-137 | a line end drops a half-received codeword and closes an open write |
| TtyCode.AddressCodeDecodes | sw/host/ttybus.cpp:388-472 | for every aligned address, across the 2^32 wrap, the address code is one complete codeword that takes a device from the last address to the new one |
| TtyCode.AddressCodeShortest | sw/host/ttybus.cpp:388-472 | no forward or absolute codeword the device understands for this move is shorter |
| TtyCode.AddressCodeShortestIff | sw/host/ttybus.cpp:388-472 | no codeword at all is shorter, if and only if no backward difference with fewer digits reaches the address |
| TtyCode.BackwardStepIsLong | sw/host/ttybus.cpp:404-436 | an instance: one word back has a two-character code that the host never uses, and it spends six |
| TtyCode.FindBackFinds | sw/host/ttybus.cpp:263-276 | the search answers the nearest distance from 1 to 255 to a known slot with that word, or 0 exactly when there is none |
| TtyCode.WordStep | sw/host/ttybus.cpp:257-311 | one word of a write lands where the host means it to, never through an undefined slot, and the two write tables still agree |
| TtyCode.WriteCallRefinesLoop | sw/host/ttybus.cpp:227-324 | a compressed write performs exactly the address and value pairs of the plain loop, in order, and host and device agree afterwards |
| TtyCode.EmptyWriteDesynchronises | sw/host/ttybus.cpp:227-324 | after a write of no words, whether or not an address was set before, host and device agree if and only if the device was at that address already |
| TtyCode.EmptyWriteMisdirects | sw/host/ttybus.cpp:227-324 | and otherwise every word of the next write to that address goes to the old one |
| TtyRead.ReadCodeDecodes | sw/host/ttybus.cpp:474-491 | every request for 1 to 512 words decodes to itself, except eight words without increment |
| TtyRead.RequestsRun | sw/host/ttybus.cpp:509-543 | the request lines of a whole call make the device read its words one after another from where it stands, and nothing else |
| TtyRead.ReadCallRefinesLoop | sw/host/ttybus.cpp:509-543 | a read call makes the device perform the plain loop's reads; all n of them if and only if it increments or n mod 512 is not 8 |
| TtyReply.ParseInvertsCode | sw/host/ttybus.cpp:606-728 | the reply code is uniquely decodable: last, short and long references (distances 1, 2 to 9, 10 to 521), raw words and the other codewords never run into one another |
| TtyReply.CoversIffDecodes | sw/host/ttybus.cpp:682-723 | the host expands every data codeword the device may send to the device's word if and only if its table covers the device's |
| TtyReply.DataKeepsCover | sw/host/ttybus.cpp:682-723 | every data codeword keeps that coverage |
| TtyReply.SkipsKeepCover | sw/host/ttybus.cpp:606-680 | so do address, idle, acknowledge and interrupt codewords before it |
| TtySession.RepliesReturn | sw/host/ttybus.cpp:594-728 | successive readword calls return the bus's words in order, and the host's address follows the device's |
| TtySession.CallRefinesLoop | sw/host/devbus.h:83-121 | one call of either kind is its plain loop, and keeps host and device in agreement |
| TtySession.PowerUpGood | sw/host/ttybus.h:75-90 | a host and a device that have just started are in agreement, whatever their tables hold |
| TtySession.SessionRefinesLoops | sw/host/devbus.h:83-121 | over any legal session the bus traffic is that of the plain loops, call after call, and every read returns what the bus answered |
| TtySession.SessionFromPowerUp | sw/host/devbus.h:83-121 | and so over any legal session from power up |
| TtySession.MovingWriteLosesTable | sw/host/ttybus.cpp:243-256 | after any session that ends in writes of which one moved the address, no address will be announced, and reads at the current one are expanded correctly for every legal reply if and only if the top of the host's table happens to hold the device's words |
| TtySession.StaleWordReturned | sw/host/ttybus.cpp:682-723 | a session from power up, for any two addresses and words, after which a legal reply makes the host return what its table held when it started |
| TtyStray.SweepKeepsCodesIff | sw/host/ttybus.cpp:134-155 | lclreadcode returns the codes it read if and only if every stray character comes after the last of them |
| TtyBus.Bus.BufAlloc | sw/host/ttybus.cpp:157-164 | the buffer has room afterwards; it is the same one when it was large enough, and a new one otherwise |
| TtyBus.Bus.EncodeAddress | sw/host/ttybus.cpp:388-472 | leaves exactly the address code at the start of the buffer; a misaligned address throws |
| TtyBus.Bus.Search | sw/host/ttybus.cpp:263-276 | the search loop finds what FindBack finds |
| TtyBus.Bus.PutWord | sw/host/ttybus.cpp:277-311 | appends the code of one word and keeps table, write pointer and address as the model says |
| TtyBus.Bus.WriteV | sw/host/ttybus.cpp:227-324 | the object ends in the state of WriteCall and has sent exactly its characters, in full batches of 32 words and one for what is left |
| TtyBus.Bus.LclReadCode | sw/host/ttybus.cpp:134-155 | the in-place compaction leaves what the sweep leaves |
| TtyBus.Bus.ReadWord | sw/host/ttybus.cpp:594-728 | on any legal reply it returns the word and ends in the state the reply model gives; an error codeword throws and is noted; the interrupt flag is set if and only if it was, or an interrupt codeword came before the data |
| TtyBus.Bus.ReadCmd | sw/host/ttybus.cpp:474-491 | appends the request for 1 to 519 words, with never more than 1024 outstanding |
| TtyBus.Bus.Issue | sw/host/ttybus.cpp:524-533 | the inner request loop fills the window and fits the 64-byte buffer |
| TtyBus.Bus.Window | sw/host/ttybus.cpp:518-538 | all requests go out, and all but the last 512 words at most come in, in order |
| TtyBus.Bus.ReadV | sw/host/ttybus.cpp:509-560 | requests exactly len words in total, stores exactly len words in order, and terminates; with its bus-error and range-check results, what has been sent, consumed and stored when an error ends it, and both flags over all the replies |
| TtyBus.RungMeans | sw/host/ttybus.cpp:625-627 | the interrupt flag over many replies: some interrupt codeword was among those consumed |
| TtyBus.Bus.Poll | sw/host/ttybus.h:123-123 | answers the interrupt flag |
| UartLine.LoopbackInOrder | sim/verilated/dbluartsim.cpp:362-445 | over any run, any divisor, any frame format, any gaps: what is delivered is the echo of what was accepted, in order, all but the last two at most; and all of it when both ends are idle |
| UartLine.LoopbackCompletes | sim/verilated/dbluartsim.cpp:362-445 | a frame and half a bit after the source falls silent, everything has been delivered |
| UartLine.EchoIsIdentityIff | sim/verilated/dbluartsim.cpp:381-386 | every byte comes back unchanged if and only if there are eight data bits, or seven with space parity |
| UartLine.SetupUnpacks | sim/verilated/dbluartsim.cpp:163-173 | every configuration with a divisor of up to 24 bits is what its packed register sets up, whatever bits 30 and up are |
| UartLine.SetupPacks | sim/verilated/dbluartsim.cpp:163-173 | and every register is its configuration, packed, but for those bits |
| UartLine.WireCarries | sim/verilated/dbluartsim.cpp:403-443 | tick by tick on the wire: a low start bit, the data bits from the lowest up, the parity bit, high stop bits, each for as many ticks as the divisor says |
| UartLine.MiddlesDelivered | sim/verilated/dbluartsim.cpp:367-402 | for any line whatsoever: after a falling edge the receiver delivers what the line was in the middle of each bit, at one and a half, two and a half and so on bit times |
| UartSim.DblUart.Configure | sim/verilated/dbluartsim.cpp:163-173 | the fields of the setup register, kept consistent with it |
| UartSim.DblUart.Next | sim/verilated/dbluartsim.cpp:347-360 | takes bytes from the buffer in order, and refills it only when it has run out |
| UartSim.DblUart.TickReceiver | sim/verilated/dbluartsim.cpp:367-402 | one step of the resynchronising receiver |
| UartSim.DblUart.LoadFrame | sim/verilated/dbluartsim.cpp:408-427 | start bit, data, parity and stop bits in place |
| UartSim.DblUart.TickTransmitter | sim/verilated/dbluartsim.cpp:403-443 | one step of the transmitter |
| UartSim.DblUart.Tick | sim/verilated/dbluartsim.cpp:362-445 | one call of tick is one step of each half, and a byte leaves the buffer only when it is taken |
| UartSim.Loopback | sim/verilated/dbluartsim.cpp:362-445 | two of the objects wired together: the receiver reports the bytes the sender took, in order |
| UartSim.ParityCounts | sim/verilated/dbluartsim.cpp:412-427 | the parity bit makes the number of ones even, or odd when m_evenp is set; fixed parity is m_evenp |
| UartSim.ShortParity | sim/verilated/dbluartsim.cpp:408-427 | with fewer than eight data bits the parity slot is or-ed with the next bit of the byte, and counts it and the ones above it |
| FlashRuns.RunSound | sim/verilated/flashsim.cpp:151-161 | in every run, write in progress implies a positive countdown, and no write command is open meanwhile |
| FlashRuns.MemoryChangesOnlyWhenAccepted | sim/verilated/flashsim.cpp:163-245 | in every run, memory changes only when chip select ends a program or erase command accepted in the same transaction with write enable set and neither write in progress nor deep power down, and then as that command says |
| FlashRuns.ChangesAreApart | sim/verilated/flashsim.cpp:151-245 | two changes of the memory are further apart than the first of them takes: a page program, a sector erase, or, for a bulk erase, a release, which may cut it short |
| FlashRuns.ProgramClears | sim/verilated/flashsim.cpp:184-192 | programming touches one 256-byte page, and a bit stays set there if and only if the page buffer has it set too |
| FlashRuns.CommandKeeps | sim/verilated/flashsim.cpp:309-447 | a command enters a writing state only when the device is writable, and leaves the countdown alone unless it wakes a sleeping device |
| FlashRuns.OnlyReleaseShortens | sim/verilated/flashsim.cpp:151-245 | with a write in progress each call takes exactly one tick off the countdown, unless it is the end of a release, which sets it to that of a release |
| FlashRuns.FailedIsFinal | sim/verilated/flashsim.cpp:277-619 | an assert that has failed, or an exit, ends the program: no run from there changes anything |
| FlashSim.FlashSim.Operator | sim/verilated/flashsim.cpp:151-629 | one call of operator() is one tick of the device, asserts and exits included |
| FlashSim.FlashSim.ProgramPage | sim/verilated/flashsim.cpp:184-192 | the in-place and of the page buffer |
| FlashSim.FlashSim.EraseSector | sim/verilated/flashsim.cpp:200-202 | the in-place erase of one sector |
| FlashSim.FlashSim.Deselect | sim/verilated/flashsim.cpp:163-245 | whatever command was running is carried out or dropped |
| FlashSim.FlashSim.Command | sim/verilated/flashsim.cpp:301-447 | the command switch; an unknown command fails its assert |
| FlashSim.FlashSim.Data | sim/verilated/flashsim.cpp:448-619 | the byte switch, by state, with the assert on an erase address and the ends of the program on too many clocks |
| FlashSim.FlashSim.Continue | sim/verilated/flashsim.cpp:277-300 | a continued read takes its address, if its asserts on the mode and on deep power down hold |
| FlashWire.ByteBeats | sim/verilated/flashsim.cpp:247-275 | eight clocked bits are one byte to the device, whatever time passes between them |
| FlashSession.LoadMore | sim/verilated/flashsim.cpp:585-598 | one more data byte fills one more place of the page buffer, and the address stays in its page |
| FlashSession.LoadDone | sim/verilated/flashsim.cpp:170-193 | chip select then ands exactly those bytes into the memory from the address on |
| FlashSession.EraseAddressed | sim/verilated/flashsim.cpp:611-615 | three address bytes after an erase command set the address, and fail the assert if and only if it is not below 4 MiB |
| FlashSession.EraseDone | sim/verilated/flashsim.cpp:194-203 | chip select then sets exactly that sector to ones |
| FlashSession.EraseAsserts | sim/verilated/flashsim.cpp:612-615 | the mask of the assert on an erase address means: below 4 MiB |
| FlashSession.PollContinues | sim/verilated/flashsim.cpp:492-496 | with every status byte there is less to wait for, or the answer that it is over is on its way |
| FlashSession.HeardByte | sim/verilated/flashsim.cpp:621-629 | the byte heard on the wire is the one loaded before |
| FlashStatus.HearStatus | sim/verilated/flashsim.cpp:336-340 | over the wires, the byte after 0x05 is the write enable latch and the other bits of the register |
| FlashStatus.HearBusy | sim/verilated/flashsim.cpp:489-493 | while a write is in progress the byte says so, with the other bits as they were |
| FlashStatus.FromPowerUp | sim/verilated/flashsim.cpp:75-97 | the byte heard is 0x1c from power up, 0x1e after 0x06, and 0x1d while a page program runs |
| FlashStatus.RoundTrip | sim/verilated/flashsim.cpp:458-471 | a byte written to the status register reads back on bits 2 to 4 and 7, and bits 5 and 6 stay |
| FlashStatus.ClearRegister | sim/verilated/flashsim.cpp:203-206 | clearing the status register clears bits 5 and 6 only |
| FlashStatus.HearConfig | sim/verilated/flashsim.cpp:364-368 | the configuration register over the wires |
| FlashStatus.HearSignature | sim/verilated/flashsim.cpp:618-621 | the electronic signature 0x14 after a release and three bytes |
| FlashStatus.Sleeps | sim/verilated/flashsim.cpp:305-308 | after 0xb9 no sequence of commands without 0xab does anything |
| FlashStatus.Wakes | sim/verilated/flashsim.cpp:394-400 | and that one wakes the device, with a countdown |
| FlashReads.ReadsOut | sim/verilated/flashsim.cpp:498-563 | every read command sends the memory from its address on, byte after byte |
| FlashReads.ContinuesOut | sim/verilated/flashsim.cpp:564-584 | and so does every continued read |
| FlashReads.ReadsContinue | sim/verilated/flashsim.cpp:220-241 | a read continues on the same wires exactly when its mode byte asks for it |
| FlashReads.Read1 | sim/verilated/flashsim.cpp:498-526 | over the wires, 0x03, and 0x0b with its dummy byte, bring out the memory |
| FlashReads.DualByteIn | sim/verilated/flashsim.cpp:263-266 | four clocks take a byte in on two wires, high bits first |
| FlashReads.DualBits | sim/verilated/flashsim.cpp:263-266 | and four bring one out |
| FlashReads.WiresAre | sim/verilated/flashsim.cpp:627-633 | which wires the device drives in each mode, and that it leaves the others alone |
| FlashXip.SeekOn | sim/verilated/flashsim.cpp:277-288 | the address nibbles of a continued read |
| FlashXip.StreamByte | sim/verilated/flashsim.cpp:572-584 | two clocks bring out one byte of memory, high nibble first, and load the next |
| FlashPort.Port.Raise | rtl/qflexpress.v:741-756 | chip select high for any time carries the command out once |
| FlashPort.Port.Slow | rtl/qflexpress.v:611-648 | a low-speed byte of the configuration port, and the byte heard meanwhile |
| FlashPort.ReadWord | rtl/qflexpress.v:611-648 | a bus read returns the four bytes of memory and leaves the device ready for the next |
| FlashDriver.TakeOffline | sw/host/flashdrvr.cpp:129-141 | from continued reads or from command mode, the device takes commands afterwards, and the memory is as it was |
| FlashDriver.PlaceOnline | sw/host/flashdrvr.cpp:162-198 | the device is in continued reads afterwards, and the memory is as it was |
| FlashDriver.FlWait | sw/host/flashdrvr.cpp:200-213 | the busy wait ends, and then the device is ready |
| FlashDriver.WriteEnable | sw/host/flashdrvr.cpp:222-224 | the write enable latch is set |
| FlashWriter.ReadBytes | sw/host/flashdrvr.cpp:428-428 | reading through the window returns the memory |
| FlashWriter.EmptyPage | sw/host/flashdrvr.cpp:285-293 | the page counts as empty if and only if all its bytes are ones |
| FlashWriter.ProgramPage | sw/host/flashdrvr.cpp:271-350 | ands the data into the page and nothing else; skipping an empty page is sound; the verdict is whether the data are there |
| FlashWriter.EraseSector | sw/host/flashdrvr.cpp:215-269 | sets exactly the sector to ones, and always verifies, if and only if the sector lies below 4 MiB; otherwise the device ends the program with its memory as it was |
| FlashCut.ProgramEnds | sim/verilated/flashsim.cpp:170-193 | a page program with any number of bytes after its command: with fewer than three, chip select programs the page addressed last with the old buffer; with more, the page addressed with the bytes sent, in a circle |
| FlashCut.EraseEnds | sim/verilated/flashsim.cpp:194-203 | a sector erase with any number of bytes: with fewer than three the sector addressed last is erased; with more the one addressed, or none if it fails the assert |
| FlashCut.QuadProgramEnds | sim/verilated/flashsim.cpp:170-193 | the four-wire page program is carried out the same way when it is cut short |
| FlashCut.BulkEnds | sim/verilated/flashsim.cpp:207-213 | an accepted bulk erase, whatever bytes follow it, sets every byte of the memory to 0xff |
| FlashCut.BytesDecideIff | sim/verilated/flashsim.cpp:585-615 | what becomes of the memory depends on the bytes sent alone, if and only if all three address bytes were |
| FlashDrvr.Compare | sw/host/flashdrvr.cpp:419-446 | finds whether an erase is needed, and otherwise a word at or before the first difference |
| FlashDrvr.ProgramPages | sw/host/flashdrvr.cpp:456-467 | programs exactly the bytes from the start to the end of sector or data, every call within one page |
| FlashDrvr.WriteSector | sw/host/flashdrvr.cpp:413-469 | brings one sector to its goal: untouched, programmed, or erased and programmed; the device ends the program if and only if the sector needs an erase and does not lie below 4 MiB |
| FlashDrvr.Driver.FlashId | sw/host/flashdrvr.cpp:99-127 | reads the device's identity, once |
| FlashDrvr.Driver.Write | sw/host/flashdrvr.cpp:389-481 | unless some sector from 4 MiB on needs an erase, it succeeds: the data are in place, and every other byte is as it was, or ones if and only if its sector held a byte that only an erase could turn into the data. Otherwise, and only then, the device ends the program at the first such sector, with all before it written and the rest as it was |
| FlashDrvr.QuarterBlocks | sim/verilated/flashsim.cpp:611-615 | ones written at 0x1400000 over a zero are such a case |
| FlashDrvr.Begin | sw/host/flashdrvr.cpp:162-198 | from a device just powered up, place_online leads to where a driver can start |
| FlashDrvr.WrittenMeans | sw/host/flashdrvr.cpp:406-469 | what that means byte by byte, and that nothing is erased when programming suffices |
| FftWire.PacketReads | sw/host/testfft.cpp:50-84 | a packet reads back as its id, position and words |
| FftWire.PacketBytes | sw/host/testfft.cpp:62-84 | on the wire everything is most significant byte first |
| FftProtocol.ReceiveKeeps | sw/rv32/fftmain.c:345-455 | whatever packet of the host arrives, the device keeps exactly a prefix of one transfer, and what it sends is true |
| FftProtocol.StepKeeps | sw/rv32/fftmain.c:307-509 | every step of host, device and network, restarts of either end included, keeps the invariant, as long as no transfer starts with an id already used |
| FftRuns.UploadSafe | sw/rv32/fftmain.c:345-396 | over any run in which no id is used twice, with loss, repetition, delay, reordering and restarts: the words written since the last reset are exactly the first ones of the transfer held, in place; and the host never runs past its data |
| FftRuns.CountedUnique | sw/host/testfft.cpp:90-94 | within one host process no id is used twice if and only if there are at most 65536 transfers |
| FftRuns.LeftMeansHeld | sw/host/testfft.cpp:99-130 | a host that has left its upload loop normally was right to: the device had held all 1024 words of that transfer |
| FftRounds.CompletesIff | sw/host/testfft.cpp:99-128 | without loss or repetition, the upload completes if and only if the device has not fallen behind the host |
| FftRounds.RestartStalls | sw/rv32/fftmain.c:372-396 | a restart in the middle is such a case: the host stays where it is for ever |
| FftRounds.TickCatchesUp | sw/rv32/fftmain.c:458-475 | when an answer has been lost while the device is ahead of a waiting host, one tick of the timer and one hearing bring the host to the device's position |
| FftRounds.ReusedIdMixes | sw/host/testfft.cpp:86-128 | a run from the very start, with a host process that starts again and so reuses its first id: the device ends up with words of two transfers |
| FftNodes.FftDevice.FftPacket | sw/rv32/fftmain.c:307-456 | the globals and the packets sent are those of the model, for packets of any length, whatever lies behind them in the buffer |
| FftNodes.FftDevice.StoreWords | sw/rv32/fftmain.c:350-353 | every word the packet begins goes to the next place: the length less the header, rounded up to words |
| FftNodes.FftDevice.FftTimeout | sw/rv32/fftmain.c:458-509 | what the device repeats: in an upload that has begun one packet of four bytes, with a result not yet taken one packet with it, both with the id and position held; otherwise nothing |
| FftNodes.FftHost.FillPacket | sw/host/testfft.cpp:100-105 | the buffer holds exactly the packet of this position |
| FftNodes.FftHost.TakeAnswer | sw/host/testfft.cpp:110-121 | the position after an answer: back to the start for another id, and otherwise never back |
| Divide.ZipBitrev | sw/zlib/udiv.c:48-55 | the bits in the opposite order |
| Divide.ReversedTop | sw/zlib/udiv.c:48-55 | the top bit of a number is the lowest bit of its reversal |
| Divide.Cltz | sw/zlib/udiv.c:90-121 | the number of leading zeros, and 63 for zero |
| Divide.Udivdi3 | sw/zlib/udiv.c:124-170 | the quotient, for all 64-bit a and b > 0, on all four paths; exactly which inputs reach the loop, and that it takes one turn more than the difference of the leading zeros |
| Divide.DivideStep | sw/zlib/udiv.c:160-168 | one turn keeps dividend = quotient so far times divisor + rest |
| Divide.Divdi3 | sw/zlib/udiv.c:211-227 | truncates toward zero, if and only if it is not the most negative number over -1 |
| Divide.Umoddi3 | sw/zlib/umod.c:53-61 | the remainder |
| Multiply.SoftMpyuhi | sw/board/cputest.c:659-711 | the high word of the product of any two 32-bit numbers, with no accumulator overflow |
| Multiply.SoftMpyshi | sw/board/cputest.c:713-733 | the high word of the signed product, rounded down, for all operands |
| Rounding.RndBitsNearest | sw/host/twoc.cpp:63-104 | with at most 63 bits, at most 32 of them cut off, the result is a nearest integer, and the even one of two; the one-bit path follows the same rule |
| Rounding.RndBitsNearestIff | sw/host/twoc.cpp:63-104 | for every width a long can have, every input is rounded to nearest if and only if the width is at most 63 and at most 32 bits are cut off |
| Rounding.MistakenRounds | sw/host/twoc.cpp:88-104 | with more than 32 bits cut off there is always an input that is rounded wrongly, 2^35 + 8 from 40 bits to 4 for one: the mask comes from a 32-bit shift |
| Rounding.WholeWordRounds | sw/host/twoc.cpp:45-52 | with 64 bits there is always one too, 0x800001 to 40 bits for one: sbits then answers 0 |
| Rounding.CutSign | sw/host/twoc.cpp:45-52 | cutting bits off before or after sign extension is the same |
| Checksum.IpcksumC | sw/board/ipcksum.c:46-54 | the complement of the ones' complement sum of what fits 32 bits; of no words if the length is negative |
| Checksum.IpcksumAsm | sw/board/ipcksum.c:55-75 | the complement of the ones' complement sum of as many words as its 32-bit counter lets the loop go round |
| Checksum.FormsAgree | sw/board/ipcksum.c:45-76 | the two return the same for every array of 1 to 32768 words |
| Checksum.FormsDiffer | sw/board/ipcksum.c:45-76 | and not from 32769 words on: an array of ones is summed wrongly |
| Checksum.EmptyDiffers | sw/board/ipcksum.c:55-65 | nor for no words or a negative length: the assembly then sums billions of words behind the pointer |
| Checksum.FormsAgreeIff | sw/board/ipcksum.c:45-76 | for every int as length: the two return the same for all arrays of that length if and only if it is from 1 to 32768 |
| Checksum.IpcksumBytes | sw/rv32/ipcksum.c:43-55 | the byte-wise form computes the complement of the ones' complement sum of what fits 32 bits, for any length; an odd one takes in the byte behind |
| Checksum.BytesFit | sw/rv32/ipcksum.c:43-55 | up to 131074 bytes nothing is lost |
| Checksum.BytesFitIff | sw/rv32/ipcksum.c:43-55 | nothing is lost on all arrays of n pairs of bytes if and only if n is at most 65537 |
| Packets.HeaderChecks | sw/rv32/ipproto.c:70-108 | a header with its checksum filled in checks to zero |
| Packets.FrameHeaders | sw/rv32/ipproto.c:70-108 | field by field: version and header length, total length, identification, no flags, a time to live of 128, a header that checks to zero, a UDP header with its own length and no checksum |
| Packets.TxUdp | sw/rv32/udpproto.c:61-91 | through UDP, IP and Ethernet the packet comes out whole if there is room for the headers and the hardware address is known, and not at all otherwise; either way one use of it ends |
| Packets.RxUdp | sw/rv32/udpproto.c:93-104 | takes the fields and the payload out of a received packet, with an IP header of any length |
| Packets.PayloadIs | sw/rv32/udpproto.c:93-104 | the payload is as long as its header says, or as much of it as has arrived, and empty when it says eight or less |
| Packets.OptionsSkipped | sw/rv32/ipproto.c:149-153 | an IP header of k words is skipped whole |
| Packets.RoundTrip | sw/rv32/udpproto.c:52-116 | any payload, ports and addresses survive sending and receiving, whatever padding follows, and the headers say what they should |
| Clocks.TickKeeps | sim/verilated/testb.h:106-149 | a tick keeps all clocks in step, meets both asserts, lands on an edge of some clock and skips none |
| Clocks.HalfIs | sim/verilated/tbclock.h:104-110 | the half period is even, and twice it is the interval but for its two low bits |
| Clocks.LevelIs | sim/verilated/tbclock.h:113-134 | the level a clock answers is that of a clock that rises at even and falls at odd multiples of its half period |
| Clocks.CountsAreExact | sim/verilated/tbclock.h:113-134 | after any number of ticks of any set of clocks each has had (elapsed + interval / 2 + 1) / interval rising edges, its interval being cut to a multiple of four |
| Clocks.NoneSooner | sim/verilated/tbclock.h:70-99 | time_to_edge is the time to the next edge: none comes sooner |
| Clocks.KeptIsLeast | sim/verilated/testb.h:106-115 | for clocks in step with half periods below 2^32 the minimum kept in 32 bits is the minimum |
| Clocks.FirstTickAsserts | sim/verilated/testb.h:106-115 | for all half periods, the first tick meets the assert if and only if none is 2 ps and the first clock's is not 2 modulo 2^32 |
| Clocks.WideClockFails | sim/verilated/testb.h:106-115 | a first half period of 2^32 + 2 ps is such a case: the minimum is kept as 1, and the next edge is 9999 ps away |
| ClockBench.TbClock.Step | sim/verilated/tbclock.h:113-134 | advancing one clock, and its new level |
| ClockBench.TestB.Tick | sim/verilated/testb.h:106-131 | the three clocks of the bench advance together, and the 32-bit minimum loses nothing |
| MemSim.MemSim.Apply | sim/verilated/memsim.cpp:104-146 | the ring refines a queue of length delay, also when it is full |
| MemSim.HoldsOn | sim/verilated/memsim.cpp:119-125 | moving the ring's head moves it as the queue moves |
| MemSim.Serve | sim/verilated/memsim.cpp:104-146 | each request is answered exactly delay ticks later, once and in order, with the word a plain byte-masked memory holds right after it |
| MemSim.MaskedIs | sim/verilated/memsim.cpp:109-134 | as numbers, bit by bit: what is written comes from the data where the mask of the select bits has it, and from what was there otherwise |
| MemSim.ReadAnswers | sim/verilated/memsim.cpp:125-140 | a read is answered with what the last write to its address left there, or with what was there at the start |
| MemSim.WriteAnswers | sim/verilated/memsim.cpp:125-140 | a write is answered with the word it leaves, and nothing else is answered |
| Mdio.OnePeriod | sim/verilated/enetctrlsim.cpp:74-86 | with a steady clock each period takes one bit, whatever the data line does in between |
| Mdio.PeriodsSample | sim/verilated/enetctrlsim.cpp:74-86 | over any number of whole periods, call by call, the decoder sees exactly the bits at the rising edges |
| Mdio.FrameTaken | sim/verilated/enetctrlsim.cpp:95-136 | any 32-bit frame changes the registers exactly as its fields say and leaves the slave ready for the next, nothing in it being taken for a preamble, if and only if it is not a write to this device with the second turnaround bit set; that one fails the assert, with the registers as they were |
| Mdio.BadTurnaround | sim/verilated/enetctrlsim.cpp:122-134 | the frame 0x50831234 is such a case |
| Mdio.WriteFrameSets | sim/verilated/enetctrlsim.cpp:115-134 | a write frame to this device sets exactly one register, and to another device none |
| Mdio.PreambleSyncs | sim/verilated/enetctrlsim.cpp:74-93 | a preamble of any length synchronises if and only if it has at least 33 ones |
| Mdio.WriteReaches | sim/verilated/enetctrlsim.cpp:58-143 | call by call and end to end, at any period of at least four calls: at least 33 ones and a write frame set exactly the addressed register of this device, and none of another's |
| Mdio.ReadLoads | sim/verilated/enetctrlsim.cpp:97-113 | a read frame to this device loads the register it names when its sixteenth bit arrives |
| Mdio.ReadGoesOut | sim/verilated/enetctrlsim.cpp:138-144 | a loaded register goes out most significant bit first, one bit per falling edge, and then ones |
| Mdio.ReadAnswered | sim/verilated/enetctrlsim.cpp:58-144 | call by call and end to end, at any period of at least four calls: after at least 33 ones, a frame that reads a register here is answered with it, most significant bit first, one bit per rising edge from the second turnaround bit on |
| Mdio.ResetUnsynchs | sim/verilated/enetctrlsim.cpp:66-75 | in reset the slave forgets its synchronisation and keeps its registers |
| Mdio.TooFast | sim/verilated/enetctrlsim.cpp:77-88 | a rising edge less than four calls after the one before takes the synchronisation away |
| Mdio.Uneven | sim/verilated/enetctrlsim.cpp:77-88 | and so does a period that differs from the one before |
| MdioSim.EnetCtrlSim.Operator | sim/verilated/enetctrlsim.cpp:58-143 | one call of operator(), in reset or out of it, is one call of the model, and answers its bit |

## Left out

- Sockets, ttys, polling, files, printing and signals: input and output only.
- TTYBUS::readidle, usleep and wait: they drain and poll an outside stream.
- Bus errors and error codewords inside whole sessions: `TtyBus.Bus.ReadV` has them for one call, `TtySession` assumes a bus that answers.
- The serial receive watchdog, idle and interrupt insertion of `rtl/wbubus`: idle and interrupt codewords may come before any reply codeword, and when they come is open.
- Legal sessions exclude the calls shown to go wrong: empty writes, `readz` of 8 modulo 512 words, and reads where a moving write left the device's read table behind.
- Overflow of m_rx_changectr after 2^31 ticks without a falling edge, and fields no constructor sets.
- flashdrvr.cpp:457 declares an inner `len` inside its own initialiser; the model uses the value meant, the bytes left up to the end of the data.
- The flash driver's Micron branch: the device modelled is not a Micron, and its identity says so.
- Reads that run off the end of the flash array, and programs at an address past it: the code has no defined result, the model reads zero and changes nothing.
- DEEP_POWER_DOWN as a state of the flash device: the code never enters it.
- rtl/qflexpress.v: only what its wires do for configuration writes and bus reads; its startup script, pipelined reads and clock division are not part of this model.
- The download half of the FFT protocol: the host may send any request there, and the words the device returns are open.
- Two hosts, or packets from strangers, in the FFT protocol.
- The zero divisor of `__udivdi3`: the code divides by zero.
- ICMP, the transmit queue, and ARP but for what its lookup answers; packets longer than their 16-bit length fields.
- Padding of MEMSIM's address by its word size, loading from files, and a delay of zero.
- The assembly tests, boot code, ELF loading, register dump tools and scope files.
- Shift counts of 32 and more for an int, and of 64 for a long, are undefined in C; the model of `rndbits` takes them modulo 32 and 64, as the usual machines do.
- Rounding.RndBitsNearestIff: is stated for widths of up to 64, all that a long has.
- FlashCut.ProgramEnds: is stated for as many bytes as the device's 32-bit clock count can tell apart from a new command; so are EraseEnds and BytesDecideIff.
- `new_udppkt` in sw/rv32/udpproto.c has no return statement; the model returns the packet it prepares, as is meant.
- `sfits` of sw/host/twoc.cpp, which compares the cut value with the width.
