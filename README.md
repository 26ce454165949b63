# R9MM bootloader: XMODEM receiver and boot decision

This project models the firmware-update core of the R9MM bootloader for
ExpressLRS receivers (STM32F1) in Dafny and proves properties of the model.
The modelled parts are:

- the XMODEM-CRC receiver of `Src/xmodem.c`: the CRC, the handling of one
  data packet, the error handler and the session loop;
- the start-up decision of `boot_code` in `Src/main.c` (XMODEM build), with
  its armed-wait command matcher, and `led_state_set`;
- the pin encoding of `Src/main.h`.

The files and what they hold:

- `hal.dfy` (module `Hal`): the drivers the core calls, as a `Board` class.
  Each driver draws its result from a script given at construction: what
  the host sends, what the flash reports, and the button levels. The board
  records what the core asked for: the bytes transmitted, the flash
  operations, and the jump to the application.
- `xmodem_crc.dfy` (module `XmodemCrc`): CRC-16/XMODEM.
  - `Crc16` is the specification and `CalcCrc` is the firmware's
    nested-loop method, proved equal to it.
  - The lemmas prove that one step is linear over XOR, that any
    single-byte change alters the CRC, and the standard check value.
- `xmodem_packet.dfy` (module `XmodemPacket`): the frame layout and the
  accumulated status bits. It also describes the frame an honest sender
  builds, which the receiver's checks are proved to accept.
- `xmodem.dfy` (module `Xmodem`): class `Receiver`.
  - Its fields are the three statics of `xmodem.c`, plus ghost counters of
    the bytes and packets accepted so far.
  - Its methods are the packet handler (split into read, check and commit),
    the error handler and the session loop.
  - The flash log a session leaves is described by `Image`, `Cursor` and
    `SessionLog`: every write goes to the cursor, the erase comes first,
    nothing follows a fault, and at most one erase happens per session.
- `boot.dfy` (module `Boot`): `boot_code`. It covers the token read, the
  debounced button, the armed wait with its command-byte matcher, and the
  endless restart of XMODEM sessions.
- `led.dfy` (module `Led`): `led_state_set`.
- `gpio.dfy` (module `Gpio`): `CREATE_IO_IMPL` and `gpio_port_pin_get`.

### Modelling choices

- Machine integers:
  - Bytes are `bv8` and CRC registers are `bv16`, so the `uint8_t` and
    `uint16_t` truncation of the C code is the bit-vector semantics.
  - The packet number is a `bv8`, so it wraps from 255 to 0 as the
    `uint8_t` does.
  - The flash cursor is a `nat` kept below 2^32, with the `uint32_t`
    wrap-around written out as `% ADDRESS_SPACE`.
- Infinite loops and blocking waits: the firmware's `while (1)` loops end
  here when the host's script is exhausted. The session loop, the armed wait
  and the transfer loop each state what holds when they stop.
- Header constants: `xmodem.h` and `flash.h` are not part of this model,
  so the values below are assumed, not read from those headers:
  - SOH 0x01, STX 0x02, EOT 0x04, ACK 0x06, NAK 0x15, CAN 0x18, 'C' 0x43;
  - number at index 0, complement at 1, data at 2, a 2-byte CRC;
  - `X_MAX_ERRORS` 3;
  - status bits: CRC 0x01, NUMBER 0x02, UART 0x04, FLASH 0x08, and
    `X_ERROR` 0xFF;
  - `FLASH_APP_START_ADDRESS` 0x08004000.
  - The LED states are numbered OFF 0, BOOTING 1, FLASHING 2,
    FLASHING_ALT 3, STARTING 4.
  - `BUTTON_INVERTED` is true.
  - Port A's register block is at 0x40010800 (STM32F1).
  - Two results rely on FLASH being a bit of its own, disjoint from CRC,
    NUMBER and UART:
    - `CheckErrors` never holds the FLASH bit;
    - the session loop's flash-abort branch (`Src/xmodem.c:82-86`) is taken
      only for flash faults.
- Uninitialised buffers: the 1028-byte receive buffer of
  `xmodem_handle_packet` has no initialiser. What it holds before the
  receive is drawn from a script of stack contents (`Board.stack`), so a
  short receive is checked against whatever the stack left there.
- Build settings: the model takes the target to define `PIN_BUTTON`, so
  the button check of `boot_code` (`Src/main.c:198-207`) is compiled in,
  and to define `PIN_LED_RED` and `PIN_LED_GREEN`, so `led_state_set`
  drives both pins. Without `PIN_BUTTON`, a request could only come from
  the token.

### Behaviour of the code worth knowing

Where a prose description of the protocol and the code differ, the model
follows the code.

- The error counter of a session is never reset. Every rejection and every
  timeout after the first packet counts towards the same limit of 3.
- A flash fault ends the session with CAN CAN, whether it is a fault of the
  erase or of a write. The code sets the counter to the limit before calling
  the error handler.
- The first-packet flag is set as soon as the erase is attempted, even when
  the erase fails.
- The packet counter is checked for equality only. A repeat of the previous
  packet (the host missed the ACK) is therefore rejected with the NUMBER
  bit, NAKed and counted as an error; it is not ACKed again. See
  `XmodemPacket.OtherNumberRejected`.
- An unexpected header byte counts as an error even before the first
  packet. After a failed header read the header byte is 0 and nothing
  happens.
- The armed wait never passes control to the application. Only "bbb"
  after the command bytes ends it, and the transfer loop follows.
- The armed-wait matcher resets on a mismatching byte without re-checking
  that byte. `EC EC 04 32 62 6C 0A` does not arm it, although it ends with
  the command bytes. See `Boot.RepeatedLeadNotArmed`.

### Specification functions

The XMODEM session and the boot path each have a pure specification over
the host's script: `Xmodem.Session` (built from `HeaderStep`, `DataStep`,
`Judge` and `OtherStep`) and `Boot.Wait` and `Boot.Sessions`. The methods
of the firmware are proved to run exactly as these functions say, and the
lemmas state what the functions guarantee. `XmodemCrc.Round`, `ShiftByte`
and `CrcByte` are not separate operations: they are the three levels of
`CalcCrc`'s nested loop, split into methods so that each level is proved
against its specification function (`Shift`, eight rounds, `CrcStep`).

## Model

| member | source | states |
|---|---|---|
| XmodemCrc.CalcCrc | Src/xmodem.c:122-150 | the nested shift/XOR loop over `length` bytes from `start` returns exactly the CRC-16/XMODEM of those bytes |
| XmodemCrc.Shift | Src/xmodem.c:139-146 | one round keeps the dropped bit 15 as bit 0 (through the low bit of 0x1021), so it loses no information: only 0 maps to 0 |
| XmodemCrc.CrcStep | Src/xmodem.c:136-147 | one byte step leaves the register 0 exactly when the byte cancels the high half of a register whose low half is clear |
| XmodemCrc.Crc16 | Src/xmodem.c:124-149 | the CRC starts from 0 with no final XOR, so a string of zero bytes has CRC 0 |
| XmodemCrc.Round | Src/xmodem.c:139-146 | the branch of the innermost level of `CalcCrc` (bit 15 set: shift and XOR 0x1021; clear: shift) is one round `Shift` |
| XmodemCrc.ShiftByte | Src/xmodem.c:137-147 | the inner loop of `CalcCrc` applies exactly eight rounds |
| XmodemCrc.CrcByte | Src/xmodem.c:135-147 | one pass of `CalcCrc`'s outer loop (the byte XORed into the high half, then eight rounds) is one byte step `CrcStep` |
| XmodemCrc.CrcStepLinear | Src/xmodem.c:136-147 | one byte step is linear over XOR in both the register and the byte |
| XmodemCrc.ShiftsZero | Src/xmodem.c:137-147 | the eight rounds of a byte map only the zero register to zero, so they lose no information |
| XmodemCrc.StepDistinctBytes | Src/xmodem.c:136-147 | from the same register, two different bytes lead to different registers |
| XmodemCrc.StepKeepsDistinct | Src/xmodem.c:136-147 | the same byte applied to two different registers keeps them different |
| XmodemCrc.PrefixesDiffer | Src/xmodem.c:133-148 | two strings that differ only at one index have different CRCs on every prefix reaching past it |
| XmodemCrc.CrcDetectsSingleByteError | Src/xmodem.c:203-207 | two equal-length strings that differ in exactly one byte have different CRCs, so the CRC comparison catches any single corrupted byte |
| XmodemCrc.CrcCheckValue | Src/xmodem.c:122-150 | the CRC of ASCII "123456789" is 0x31C3, the published check value of CRC-16/XMODEM |
| XmodemPacket.PayloadSize | Src/xmodem.c:160-173 | the payload size is nonzero exactly for SOH and STX, and is a whole number of 128-byte blocks of at most 1024 |
| XmodemPacket.Payload | Src/xmodem.c:182 | the payload has the announced size and is the buffer from the data index on |
| XmodemPacket.CheckErrors | Src/xmodem.c:185-207 | each status bit is set exactly when its check fails (UART, packet number or complement, CRC); the status is X_OK exactly when all pass; it never holds the FLASH bit or X_ERROR |
| XmodemPacket.BuildFrame | Src/xmodem.c:174-182 | the sender's frame has the length the receiver reads, the number and its complement first, and the payload at the data index |
| XmodemPacket.ReceivedCrc | Src/xmodem.c:180 | the received CRC's high byte is the second-to-last byte read and its low byte the last |
| XmodemPacket.CrcBytesRoundTrip | Src/xmodem.c:180 | reading the two trailer bytes high byte first gives back the CRC the sender wrote |
| XmodemPacket.BuiltFrameTrailer | Src/xmodem.c:180-182 | the trailer of a sender's frame carries the CRC of its payload |
| XmodemPacket.BuiltFrameFields | Src/xmodem.c:178-182 | a buffer that received a sender's frame holds its number, complement, payload and CRC where the receiver reads them |
| XmodemPacket.SenderFrameAccepted | Src/xmodem.c:185-207 | a sender's frame for the expected number, received without UART error, passes every check, and its payload is the sender's |
| XmodemPacket.CorruptedPayloadRejected | Src/xmodem.c:203-207 | a payload that differs in one byte from the one the sender checksummed is rejected with the CRC bit |
| XmodemPacket.ComplementMeaning | Src/xmodem.c:197-202 | the integer sum check accepts exactly the complement byte 255 - number |
| XmodemPacket.OtherNumberRejected | Src/xmodem.c:192-196 | a frame for any other packet number, including a repeat of the previous packet, is rejected with exactly the NUMBER bit, however good its CRC |
| Xmodem.CommitOps | Src/xmodem.c:209-227 | an accepted frame erases first exactly when the cursor is at the application start, writes only after a successful erase, and every write programs the payload at the cursor with a quarter of its bytes as word count |
| Xmodem.CommitOpsOk | Src/xmodem.c:209-227 | the flash operations of an accepted frame all succeed exactly when the erase (at the start address) and the write report success |
| Xmodem.CursorAtStart | Src/xmodem.c:209 | within the address space, the cursor is back at the application start exactly when nothing has been written |
| Xmodem.CursorAligned | Src/xmodem.c:230-235 | the cursor stays on a 128-byte boundary (so every write is word-aligned) while the accepted bytes are whole 128-byte blocks, across the 32-bit wrap |
| Xmodem.NumberWraps | Src/xmodem.c:233 | the `uint8_t` packet number after an increment is the count plus one modulo 256 |
| Xmodem.AddressWraps | Src/xmodem.c:234 | adding to the cursor with a wrap after each addition equals adding everything and wrapping once |
| Xmodem.CommitKeepsSequence | Src/xmodem.c:209-227 | the operations of an accepted frame keep every write at the cursor; they add the payload to the image exactly when all succeed, erase exactly when the cursor is at the start, and leave a fault last |
| Xmodem.CommitEraseCount | Src/xmodem.c:209-218 | the operations of an accepted frame add one erase when the cursor is at the application start and none otherwise |
| Xmodem.CursorOfImage | Src/xmodem.c:209 | while the image fits in the address space, the cursor is at the start exactly when nothing has been programmed |
| Xmodem.CommitImage | Src/xmodem.c:220-235 | the programmed image grows by exactly the payload when the frame's operations succeed, and not at all otherwise |
| Xmodem.CommitStartsWithErase | Src/xmodem.c:209-218 | a session's log starts with the erase |
| Xmodem.CommitErases | Src/xmodem.c:209-218 | a session erases once, at its first accepted frame, and never again while the image fits in the address space |
| Xmodem.CommitFaults | Src/xmodem.c:214-226 | after an accepted frame the log is fault-free exactly when all of its operations succeeded |
| Xmodem.SessionLogCommit | Src/xmodem.c:209-235 | the operations of an accepted frame keep the session's log invariant: writes at the cursor, nothing after a fault, the image as long as the accepted bytes, erase first, at most one erase |
| Xmodem.SessionLogStep | Src/xmodem.c:72-92 | one iteration of the loop (no flash operations, or those of an accepted frame) keeps the session's log invariant |
| Xmodem.DeliveredPrefix | Src/xmodem.c:178 | a receive that delivered enough bytes leaves them at the front of the buffer |
| Xmodem.CountUp | Src/xmodem.c:251 | below the limit, incrementing the `uint8_t` error counter never wraps |
| Xmodem.DataFrameKeeps | Src/xmodem.c:72-92 | handling a data frame from a running session keeps the session's invariant, with the log extended by the frame's flash operations and the NAKs grown by one exactly for a rejection below the limit |
| Xmodem.ErrorHandler | Src/xmodem.c:247-267 | the counter goes up by one; at or above the limit it sends CAN CAN and returns X_ERROR, below it sends NAK and returns X_OK, so the NAKs sent grow by one exactly when it returns X_OK |
| Xmodem.HeaderKeeps | Src/xmodem.c:45-66 | a header wait keeps the session's invariant: an uncounted read changes nothing it looks at, and a counted one adds a rejection answered with NAK below the limit and with CAN CAN at it |
| Xmodem.Frame | Src/xmodem.c:158-178 | the frame buffer is 1028 bytes, and a successful receive of at least the frame's length leaves the received bytes at its front |
| Xmodem.OtherStep | Src/xmodem.c:93-111 | the other headers touch neither the flash nor the scripts, and control passes to the application exactly on EOT |
| Xmodem.JudgeRejected | Src/xmodem.c:87-91 | a frame that failed a check adds one error and one rejection, answered with NAK below the limit and CAN CAN at it, and changes nothing else |
| Xmodem.JudgeFlashed | Src/xmodem.c:76-80 | a frame that passed and was programmed is ACKed, its payload is added to the image, and the number and cursor advance |
| Xmodem.JudgeFaulted | Src/xmodem.c:81-86 | a frame whose programming faulted ends the session with CAN CAN, the image, number and cursor unchanged |
| Xmodem.DataStepOutcome | Src/xmodem.c:185-235 | the frame after a data header is flashed exactly when it passes every check for the expected number, and what is flashed is its payload at the cursor; a frame that fails leaves the log and counts a rejection |
| Xmodem.SessionStands | Src/xmodem.c:33-114 | for every script the session's log is well formed and empty exactly when no frame was flashed. It completes exactly when it jumped, after ACK and both messages. It gives up only with CAN CAN: after a flash fault with every rejection NAKed, or at the third rejection, which got CAN CAN instead of NAK. Every other end has no fault, fewer than 3 rejections and one NAK per rejection |
| Xmodem.SessionWritesFromScript | Src/xmodem.c:185-227 | every write of a session programs the payload of a frame the host sent that passed every check (number, complement, CRC) for some packet number |
| Xmodem.SessionLastHeader | Src/xmodem.c:94-104 | a session completes only after an EOT header was read, and is cancelled only when the last header read was CAN, with nothing jumped |
| Xmodem.Receiver.constructor | Src/xmodem.c:16-18 | the statics start at packet 1, address 0, no first packet |
| Xmodem.Receiver.CheckFrame | Src/xmodem.c:185-207 | the four checks accumulate exactly the status bits of `CheckErrors` for the expected packet number |
| Xmodem.Receiver.ReadFrame | Src/xmodem.c:159-182 | it reads the size the header announces (X_ERROR for any other header) into a fresh 1028-byte buffer holding the stack's bytes, and returns the trailer CRC and the CRC of the payload as read |
| Xmodem.Receiver.Program | Src/xmodem.c:209-229 | the flash operations are exactly `CommitOps` at the cursor, taking as many flash results as calls; the first-packet flag is set when the cursor was at the start; the status is X_OK exactly when all succeeded and FLASH otherwise |
| Xmodem.Receiver.Commit | Src/xmodem.c:208-235 | for a checked frame: erase at the application start if the cursor is there, write the payload at the cursor, and advance on success; the status is X_OK exactly when every operation succeeded, and FLASH otherwise with nothing advanced; the flash results left are those not taken |
| Xmodem.Receiver.Advance | Src/xmodem.c:230-235 | after an accepted frame the packet number stays one more than the frames accepted (mod 256) and the cursor stays the start plus the bytes accepted (mod 2^32) |
| Xmodem.Receiver.HandlePacket | Src/xmodem.c:157-238 | the frame is the stack's bytes overwritten by the receive; it passes exactly when `CheckErrors` for the expected number is X_OK. A non-data header is rejected and a failing frame returns its status bits, with flash log, flash results and statics unchanged. A passing frame is committed as `Commit` says |
| Xmodem.Receiver.Respond | Src/xmodem.c:76-91 | a flashed frame is ACKed with the counter unchanged; a flash fault forces the counter to the limit and ends with CAN CAN; any other failure counts one error, with NAK below the limit and CAN CAN at it |
| Xmodem.Receiver.AwaitHeader | Src/xmodem.c:45-66 | a failed header read prompts with 'C' before the first packet; after it, it counts an error and sends exactly one NAK below the limit and exactly CAN CAN at it; the header is the byte read, or 0 |
| Xmodem.Receiver.OtherHeader | Src/xmodem.c:93-111 | EOT acknowledges, sends both messages and jumps; CAN stops the session silently; any other byte that was read is counted and answered with exactly one NAK below the limit and CAN CAN at it; after a failed read nothing happens |
| Xmodem.Receiver.Round | Src/xmodem.c:43-112 | one iteration takes the receiver, the board and the loop's locals from loop state `l` to `Step(l)` |
| Xmodem.Receiver.HeaderRound | Src/xmodem.c:45-66 | the header wait takes the loop state to `HeaderStep(l)`, the header being the byte read |
| Xmodem.Receiver.DataRound | Src/xmodem.c:72-92 | the SOH/STX case judges the frame received with the verdict of `CheckErrors` for the expected number and its payload, and takes the loop state to `Judge` of it, flash log, output and statics included |
| Xmodem.Receiver.Answer | Src/xmodem.c:76-91 | the reply to a handled frame takes the loop state to `Judge` of that frame |
| Xmodem.Receiver.OtherRound | Src/xmodem.c:93-111 | the EOT, CAN and default cases take the loop state to `OtherStep` |
| Xmodem.Receiver.Serve | Src/xmodem.c:43-113 | the loop takes the loop state to `Run` of it |
| Xmodem.Receiver.ReceiveSession | Src/xmodem.c:33-114 | the session's end, flash operations, transmissions, scripts left, jump and statics are exactly those of `Session` over the host's script, the flash results and the stack. Hence everything `SessionStands` guarantees: erase before any write and at most once, every write at the cursor, nothing after a fault, completion only with ACK and both messages, giving up only with CAN CAN after a flash fault or 3 counted errors, and one NAK per counted error except one that reached the limit |
| Boot.PrintBootHeader | Src/main.c:165-179 | the banner's four lines are transmitted in order |
| Boot.CStr | Src/main.c:195 | the C string of a buffer is its prefix before the first NUL |
| Boot.Contains | Src/main.c:195 | strstr finds a string only in one at least as long, and always finds the empty string |
| Boot.HeaderAfter | Src/main.c:185-193 | after the first read the 6-byte header still ends in NUL, and holds zeros when the read failed |
| Boot.TokenWithinRead | Src/main.c:185-196 | the NUL at the end of the 6-byte header keeps the token search inside the five bytes read |
| Boot.Pressed | Src/main.c:200-202 | with BUTTON_INVERTED set, the button reads as pressed exactly when the pin is low |
| Boot.BootRequest | Src/main.c:192-207 | the header buffer is what the 5-byte read delivered over zeros. A token request is made exactly when that read succeeds and carries "bbb" or "2bl", and then the button is not read. A button request is made exactly when there is no token and both samples read pressed |
| Boot.ArmStep | Src/main.c:233-258 | in state k below 6 the matcher advances exactly on the k-th command byte and otherwise resets to 0, never passing 6 |
| Boot.Scan | Src/main.c:233-258 | the matcher's state after a string of bytes from the reset state never passes 6 (armed) |
| Boot.ArmStepSuffix | Src/main.c:233-258 | in state k the input ends with the first k command bytes, and one more byte keeps that so |
| Boot.ScanStepSuffix | Src/main.c:233-258 | one more byte keeps the matcher's suffix invariant, and arming on it means the input ends with all six command bytes |
| Boot.ScanSuffix | Src/main.c:233-258 | whenever the matcher first arms, the bytes read end with EC 04 32 62 6C 0A |
| Boot.MagicArms | Src/main.c:233-258 | from the reset state, the six command bytes always arm the matcher |
| Boot.RepeatedLeadNotArmed | Src/main.c:234-237 | EC EC 04 32 62 6C 0A leaves the matcher reset, although it ends with the command bytes |
| Boot.Wait | Src/main.c:221-272 | the wait keeps a 6-byte buffer; when it ends ready the buffer's C string holds "bbb" and part of the script is left, and otherwise the whole script is used up |
| Boot.WaitReady | Src/main.c:221-272 | the wait ends ready only with the matcher armed, the bytes read since the last reset ending with EC 04 32 62 6C 0A, and "bbb" in the buffer; otherwise it has used up the whole input |
| Boot.CStrReaches | Src/main.c:267 | a C string runs at least as far as the buffer's leading non-NUL bytes |
| Boot.TokenAtStart | Src/main.c:267 | a buffer starting with "bbb" holds a C string in which strstr finds "bbb" |
| Boot.ArmedReady | Src/main.c:260-270 | once armed, a read carrying "bbb" ends the wait, whatever the buffer held before |
| Boot.FeedCommandByte | Src/main.c:233-258 | one expected command byte moves the matcher one state forward |
| Boot.CommandFeeds | Src/main.c:221-272 | after any number of the command bytes, the remaining ones followed by a read carrying "bbb" end the wait ready |
| Boot.UploaderGetsThrough | Src/main.c:217-272 | from the reset state, the uploader's six command bytes followed by a read carrying "bbb" always end the wait ready |
| Boot.MatchByte | Src/main.c:228-259 | one iteration below the armed state consumes one receive and goes on exactly as the wait over the rest of the script |
| Boot.AwaitToken | Src/main.c:260-271 | one iteration in the armed state prints the banner, consumes one receive, and ends the wait or goes on exactly as the wait over the rest of the script |
| Boot.WaitRound | Src/main.c:221-271 | one pass of the wait consumes one receive and stays on the course `Wait` gives for the whole script, or ends ready where it does |
| Boot.ArmedWait | Src/main.c:217-273 | the loop runs exactly as the wait over the host's script: it ends ready with the command bytes read since the last reset and "bbb" in the buffer, having printed one banner per armed read; otherwise it goes on until the input is exhausted |
| Boot.Sessions | Src/main.c:276-282 | sessions restart over what the last one left; none but the last has jumped, and there are sessions exactly when there is a script |
| Boot.SessionsComplete | Src/main.c:276-282 | of the restarted sessions only the last may complete, and the transfer completes exactly when the last one jumped |
| Boot.LastSessionCompletes | Src/main.c:276-282 | when the last restarted session jumped, it sent ACK and both messages last |
| Boot.CompletedTail | Src/main.c:276-282 | when the transfer ends with a jump, the whole output ends with ACK and both messages |
| Boot.TransferLoop | Src/main.c:276-282 | the loop runs exactly the sessions of `Sessions` over the host's script, leaving their flash operations, their output and how each ended; it stops only with a jump or an exhausted script |
| Boot.Requested | Src/main.c:216-282 | for a token the sessions run on the script after the first read. For the button the armed wait runs first; the sessions run on what it leaves only if it ended ready, and otherwise nothing is flashed and nothing jumps. Control passes only after ACK and both messages |
| Boot.BootCode | Src/main.c:181-283 | after banner and prompt, without a token or a held button it jumps at once with the flash untouched. With a request it behaves as `Requested` says: a held button leads to a flash only after EC 04 32 62 6C 0A and "bbb", and control passes only at the end of a completed XMODEM session |
| Led.Colour | Src/main.c:126-142 | the colour word is a 24-bit value, dark exactly for OFF and any unknown state |
| Led.LedStateSet | Src/main.c:123-152 | red is lit exactly while booting or flashing; green exactly while booting, in the alternate flashing phase, or starting; the colour word is dark exactly when neither pin is lit |
| Gpio.CreateIo | Src/main.h:55 | the encoding is a 32-bit value holding the port letter above the low byte and the pin in it, whenever both fit |
| Gpio.PortIndex | Src/main.h:68 | the port index is the port letter minus 'A', wrapping around 2^32 for a letter below 'A' |
| Gpio.PortAddress | Src/main.h:69 | the register-block address is a 32-bit value, and for ports A to P it is port A's block plus 0x400 per port, without wrapping |
| Gpio.PortPinGet | Src/main.h:65-72 | the decoded pin is the value modulo 32, so always below 32; the port is a 32-bit address |
| Gpio.IoRoundTrip | Src/main.h:55 | decoding CREATE_IO_IMPL(port, pin) gives back the pin and the register block of port - 'A', for pins below 32 |
| Gpio.PinOutOfRange | Src/main.h:55 | pin 32 of port A decodes as pin 0 of port A |

## Left out

- Timing and LEDs inside the transfer are left out. This covers the 500 ms
  and 1000/2000 ms receive timeouts, `HAL_GetTick`, `HAL_Delay`, the LED
  toggles of `xmodem_calc_crc` and the session loop, `flashcounter`, and the
  blinking of the armed wait. Time is not modelled; a timeout is a failed
  receive in the host's script.
- `ws2812_set_color_u32` is not modelled beyond the colour word that
  `LedStateSet` returns. The RGB LED driver is not part of this model.
- The optional version and MCU strings of `print_boot_header` are left out
  (they are build-time options), and so is the non-XMODEM `boot_code`.
- Clock, UART, GPIO and flash initialisation, `main`, and the
  `gpio_port_clock` helper of `main.c` are left out. The drivers' behaviour
  is a script; what `flash_erase` erases and how `flash_write` programs
  words is not modelled. The log records the address, the word count and
  the source bytes.
- A failed UART receive is taken to leave its buffer unchanged, and a
  successful one to store at most the requested bytes. The UART driver is
  not part of this model.
- The firmware's endless loops (waiting for a header, the armed wait, the
  restart of sessions) end when the host's script is exhausted. `Waiting`
  and the `hal.rx == []` postconditions name that case.
- XmodemCrc.CrcStepLinear: linearity is proved for one byte step, not for
  whole strings. The error-detection property is proved directly.
- Xmodem.Receiver.ReceiveSession: "at most one erase" is stated only while fewer
  than 2^32 bytes have been accepted. After that the 32-bit cursor comes
  back to the application start and the code would erase again.
- Gpio.PortPinGet: the port is returned as an address number, not as a
  `GPIO_TypeDef` pointer.
