# SD card SPI driver: command checksum, command frames, response polling and power-up

This project models the protocol core of `SdDriver`, an STM32 driver that
talks to an SD card in SPI mode, and proves properties of it in Dafny. The
driver does four things, and each has a module here:

- **`SdCrc`: the CRC7 command checksum.** The reference definition is a
  polynomial remainder. The generator is G(x) = x^7 + x^3 + 1, the constant
  0x89, as in section 4.5 of the SD Physical Layer Simplified
  Specification. `GetSdCrc` is the driver's bit-serial routine: two nested
  loops over a `crc` register and a `crc_prev` register. It is proved to
  return the remainder shifted left one place, with the end bit set. A
  frame carrying that byte divides evenly by G, which is the check the
  card performs.
- **`SpiBus`: the bus.** Every byte the driver clocks takes one *slot*. A
  slot records the byte driven on MOSI and whether chip select was
  asserted. Every write to the chip-select pin is a `CsWrite`: the level
  driven, and the number of slots clocked before it. So a release and a
  re-select between two transfers are recorded even though no byte is
  clocked between them. The card is a script of the bytes it drives back, slot by
  slot. Past the end of the script the line idles high and reads 0xFF. A
  bounded poll (`Poll`) accepts the first chunk whose first byte has bit 7
  clear, or gives up after a fixed number of chunks.
- **`SdCommand`: frames and replies.** It defines:
  - the 6-byte command frame of section 7.3.1 of the same specification;
  - the big-endian 32-bit payload;
  - what the two response readers return for a given card script
    (`R1Reply`, `R7Reply`) and how many bytes they clock (`R1Length`,
    `R7Length`).
- **`SdDriver`: the driver object.** The `Driver` class has:
  - a chip-select field `cs`;
  - the log of clocked slots, `log`;
  - the log of chip-select writes, `pins`;
  - the card script, `rx`.

  Its methods are `IssueCommand`, `GetResponseR1`, `GetResponseR3R7` and
  `Initialize`, written imperatively as in the source. Each is proved
  against the functions of `SdCommand`. `Initialize` is also proved
  against `InitRun`, the reference composition of the handshake:
  1. eighty dummy clocks with the card deselected;
  2. CMD0, which must be answered with the idle status 0x01;
  3. CMD8 with the check pattern 0x1AA.

  `InitPins` lists the chip-select writes of every run: the card is
  released after each command frame and selected again for its poll.
  Lemmas about `InitRun` give the bus traces for particular cards: a
  version 2 card, a version 1 card, a card that answers CMD8 late, and no
  card at all.

A failed `ASSERT` halts the firmware for good. Here it is the result
`Abort`. Chip select stays as it was when the check failed. When a response
poll runs out, the card is still selected. `Initialize` returns the
version verdict that the source only prints: `Ok(true)` for version 2 and
`Ok(false)` otherwise.

Details of the source that the model keeps as written:
- `GetResponseR3R7` polls in chunks of five filler bytes and tests only
  the first byte of each chunk (SdDriver.cpp:162, 174).
- A CMD8 reply whose echo does not match is only reported; it does not
  halt (SdDriver.cpp:98-103).
- The version check keeps the low ten bits of the payload, mask 0x3FF
  (SdDriver.cpp:98).
- `Initialize` ends after the CMD8 exchange (SdDriver.cpp:104).

`GetSdCrc` loads `buf[0]` into the register whole, before any reduction.
Bit 7 of that byte is therefore shifted out without being divided. The
routine computes the CRC7 of the body with that bit cleared. This equals
the true checksum whenever the start bit is 0, which holds for every frame
`IssueCommand` builds from a command index below 64.

The R3/R7 reader tests only the first byte of each five-byte chunk. A card
that idles one byte before answering, the stream FF 01 00 00 01 AA noted in
a comment at `SdDriver.cpp:167-169`, is therefore missed. `R7MissesShiftedAnswer` and
`LateCardRun` state what happens then.

## Model

| member | source | states |
|---|---|---|
| SdCrc.GetSdCrc | SdDriverSample/Core/Src/SdDriver.cpp:23-42 | the returned byte has the end bit (bit 0) set. It is the checksum byte of `buf[0..4]` with the start bit of `buf[0]` cleared, so it depends on those five bytes only. When `buf[0] < 0x80` it is the CRC7 of `buf[0..4]` shifted left, with the end bit set |
| SdCrc.CodewordDivisible | SdDriverSample/Core/Src/SdDriver.cpp:29-40 | any message followed by the seven bits of its CRC7 leaves remainder 0 on division by x^7 + x^3 + 1 |
| SdCrc.FrameDivisible | SdDriverSample/Core/Src/SdDriver.cpp:23-42 | a 5-byte body followed by bits 7..1 of its checksum byte is divisible by the generator |
| SdCrc.GoIdleStateCrc | SdDriverSample/Core/Src/SdDriver.cpp:78-83 | the checksum byte of `40 00 00 00 00` (CMD0) is 0x95 |
| SdCrc.SendIfCondCrc | SdDriverSample/Core/Src/SdDriver.cpp:89-93 | the checksum byte of `48 00 00 01 AA` (CMD8) is 0x87 |
| SdCrc.IntRegisterLowByte | SdDriverSample/Core/Src/SdDriver.cpp:25-38 | a shift-in-and-reduce step on the 32-bit `int` register, taken to its low byte, is the same step on an 8-bit register, so the low byte never depends on the higher bits |
| SdCrc.IntRegisterBelow | SdDriverSample/Core/Src/SdDriver.cpp:30-38 | from a register value below 0x80, one step leaves the wide register below 0x100 before reduction and below 0x80 after it |
| SdCrc.PreloadByte | SdDriverSample/Core/Src/SdDriver.cpp:28 | loading a byte with bit 7 clear into the register gives the remainder of its eight bits |
| SdCrc.ShiftedBitIsShift | SdDriverSample/Core/Src/SdDriver.cpp:34 | the bit the routine shifts in is `(buf[i] >> j) & 1` |
| SdCrc.StartBitClear | SdDriverSample/Core/Src/SdDriver.cpp:28 | when the start bit of `buf[0]` is clear, the divided body is exactly `buf[0..4]` |
| SdCommand.FrameLayout | SdDriverSample/Core/Src/SdDriver.cpp:121-128 | a frame is 0x40 OR-ed with the command, then the four argument bytes in order, then a checksum byte whose end bit is set. For a command below 0x80 that byte is the checksum of the first five bytes |
| SdCommand.FrameWellFormed | SdDriverSample/Core/Src/SdDriver.cpp:121-128 | for a command index below 64, the frame has start bit 0, transmission bit 1 and a correct checksum, and it carries that index |
| SdCommand.WellFormedIsFrame | SdDriverSample/Core/Src/SdDriver.cpp:121-128 | every well-formed 6-byte frame is the frame of its own index and argument. Frame building and index extraction are inverse |
| SdCommand.FramePassesCardCheck | SdDriverSample/Core/Src/SdDriver.cpp:128 | the checksum the driver appends makes the frame pass the card's CRC7 check |
| SdCommand.GoIdleStateFrame | SdDriverSample/Core/Src/SdDriver.cpp:78-83 | the CMD0 frame is `40 00 00 00 00 95` |
| SdCommand.SendIfCondFrame | SdDriverSample/Core/Src/SdDriver.cpp:89-93 | the CMD8 frame is `48 00 00 01 AA 87` |
| SdCommand.WordOfBytes | SdDriverSample/Core/Src/SdDriver.cpp:184-187 | splitting a 32-bit value into bytes, most significant first, and reassembling it as the reader does gives the value back |
| SdCommand.BytesOfWord | SdDriverSample/Core/Src/SdDriver.cpp:184-187 | reassembling four bytes big-endian and splitting the result gives the bytes back |
| SdCommand.R1Accepted | SdDriverSample/Core/Src/SdDriver.cpp:143-154 | a byte the R1 reader returns has bit 7 clear and is the last of 1 to 8 bytes clocked, and every byte before it had bit 7 set |
| SdCommand.R1Aborts | SdDriverSample/Core/Src/SdDriver.cpp:143-150 | the R1 reader fails exactly when all eight bytes have bit 7 set, and it has then clocked eight bytes |
| SdCommand.R1AfterIdle | SdDriverSample/Core/Src/SdDriver.cpp:143-149 | after `n` < 8 idle bytes and then a byte with bit 7 clear, the reader returns that byte after `n + 1` exchanges |
| SdCommand.R7Accepted | SdDriverSample/Core/Src/SdDriver.cpp:173-187 | a reply the R3/R7 reader returns comes from the last five-byte chunk: the status is its first byte, with bit 7 clear, and the payload is the next four bytes big-endian. Every earlier chunk began with bit 7 set |
| SdCommand.R7Aborts | SdDriverSample/Core/Src/SdDriver.cpp:173-180 | the R3/R7 reader fails exactly when all eight chunks begin with bit 7 set, after forty bytes |
| SdCommand.R7MissesShiftedAnswer | SdDriverSample/Core/Src/SdDriver.cpp:162-180 | for the stream FF 01 00 00 01 AA, the chunked reader fails while a byte-wise poll finds 0x01 followed by the echo 0x1AA |
| SpiBus.PollFirst | SdDriverSample/Core/Src/SdDriver.cpp:143-149 | a chunk the poll accepts is the first accepted one |
| SpiBus.PollFindsFirst | SdDriverSample/Core/Src/SdDriver.cpp:143-149 | the first accepted chunk below the bound is the one the poll returns |
| SpiBus.PollExhausted | SdDriverSample/Core/Src/SdDriver.cpp:143-150 | the poll is exhausted exactly when every chunk below the bound is rejected |
| SdDriver.Driver.constructor | SdDriverSample/Core/Src/SdDriver.cpp:49-52 | a new driver has clocked nothing, has not written the chip-select pin, and leaves chip select as it finds it |
| SdDriver.Driver.CsEnable | SdDriverSample/Core/Src/SdDriver.cpp:8-11 | chip select is asserted, one write of the asserted level is recorded at the current slot, and nothing is clocked |
| SdDriver.Driver.CsDisable | SdDriverSample/Core/Src/SdDriver.cpp:13-16 | chip select is deasserted, one write of the released level is recorded at the current slot, and nothing is clocked |
| SdDriver.Driver.Transmit | SdDriverSample/Core/Src/SdDriver.cpp:129 | the bytes are clocked out in order at the current chip-select level, the pin is not written, and what the card drives back is discarded |
| SdDriver.Driver.TransmitReceive | SdDriverSample/Core/Src/SdDriver.cpp:144 | the bytes are clocked out in order, the pin is not written, and the receive buffer holds what the card drove in the same slots |
| SdDriver.Driver.IssueCommand | SdDriverSample/Core/Src/SdDriver.cpp:117-132 | exactly the six bytes of the command frame are clocked, all with the card selected, no reply is read. The pin is written twice: asserted before the frame and released after it |
| SdDriver.Driver.GetResponseR1 | SdDriverSample/Core/Src/SdDriver.cpp:134-155 | the result is `R1Reply` of the card from the current slot, and exactly `R1Length` selected filler bytes are clocked. The pin is asserted before the first byte and released after the last only when a reply came, so chip select stays asserted exactly when the poll failed |
| SdDriver.Driver.GetResponseR3R7 | SdDriverSample/Core/Src/SdDriver.cpp:158-189 | the status byte and payload are `R7Reply` from the current slot, and exactly `R7Length` selected filler bytes are clocked. The pin is asserted before the first byte and released after the last only when a reply came, so chip select stays asserted exactly when the poll failed |
| SdDriver.Driver.Initialize | SdDriverSample/Core/Src/SdDriver.cpp:60-104 | the slots clocked, the chip-select writes, the final chip select and the outcome are those of `InitRun` for the card from the current slot |
| SdDriver.InitPrologue | SdDriverSample/Core/Src/SdDriver.cpp:71-83 | every run begins with ten deselected 0xFF bytes and then the CMD0 frame `40 00 00 00 00 95` with the card selected |
| SdDriver.InitSelection | SdDriverSample/Core/Src/SdDriver.cpp:71-94 | the dummy bytes are sent deselected and every later byte selected. After the run the card stays selected exactly when a response poll ran out, and never when the run succeeded |
| SdDriver.InitPins | SdDriverSample/Core/Src/SdDriver.cpp:71-94 | every run writes the pin as: release at its start, select after the ten dummy bytes, release after the CMD0 frame and select again at the same slot for its poll, and release after the reply when one came. When the reply is 0x01, the same release, select, release, select follow around CMD8, and a final release comes only when its poll found a reply |
| SdDriver.IdlePinsToggle | SdDriverSample/Core/Src/SdDriver.cpp:71-84 | up to the CMD0 reply, every pin write flips chip select and none goes back in slot order |
| SdDriver.IfCondPinsToggle | SdDriverSample/Core/Src/SdDriver.cpp:71-94 | up to the CMD8 reply, every pin write flips chip select and none goes back in slot order |
| SdDriver.InitLength | SdDriverSample/Core/Src/SdDriver.cpp:60-104 | a run clocks 16 bytes, plus the CMD0 poll, plus the 6 bytes of CMD8 and its poll when the CMD0 reply was 0x01. That is between 17 and 70 bytes |
| SdDriver.VersionTwoRun | SdDriverSample/Core/Src/SdDriver.cpp:89-103 | a card that returns idle and then echoes 0x1AA is reported as version 2, and is deselected at the end |
| SdDriver.VersionTwoTrace | SdDriverSample/Core/Src/SdDriver.cpp:60-104 | against that card the clocked bytes are exactly: ten deselected fillers, `40 00 00 00 00 95`, two fillers, `48 00 00 01 AA 87`, and five fillers |
| SdDriver.VersionTwoPins | SdDriverSample/Core/Src/SdDriver.cpp:71-94 | against that card the chip-select writes are exactly: release at slot 0, select at 10, release and select at 16, release and select at 18, release and select at 24, release at 29 |
| SdDriver.VersionOneRun | SdDriverSample/Core/Src/SdDriver.cpp:98-103 | a card that rejects CMD8 with status 0x05 yields the payload 0xFFFFFFFF. The run completes with "not version 2", which is not an error |
| SdDriver.LateCardRun | SdDriverSample/Core/Src/SdDriver.cpp:167-180 | a card whose CMD8 answer starts one byte late makes the run halt on the CMD8 check, with the card selected, after forty polling bytes |
| SdDriver.NoCardRun | SdDriverSample/Core/Src/SdDriver.cpp:78-84 | with no card, the run halts on the CMD0 check after eight polling bytes, with the card selected: its last pin write is the select before the poll |

## Left out

- `HAL_Delay(10)` before the dummy clocks: timing only.
- The 0xFFFF timeouts of the HAL transfer calls: the transfers always complete here.
- The `printf` and `DEBUG_LOG` diagnostics: output formatting. `Initialize` returns the version verdict it prints.
- `MainLoop`: an empty endless loop.
- The destructor's `ASSERT(0)`.
- The `ABORT` spin loop: a failed `ASSERT` is the result `Abort`, not non-termination.
- The constants and register structures of `Sd.hpp`: they have no behaviour.
- The SPI handle is not modelled. The constructor takes the card script and the current chip-select level in its place.
- The card is a fixed script of the bytes it drives. It does not react to the bytes it receives, so a card model that checks frames or changes state is not part of this model.
- GPIO pin writes are the `cs` field and the `pins` log. Electrical levels, the pin identity and the time between two writes at the same slot are not modelled.
- SdCrc.GetSdCrc: the C `int` registers are modelled by their low byte. The bits above bit 7 never reach the low byte (`IntRegisterLowByte`), and the returned value is cast to 8 bits. For `buf[0] >= 0x80` the high bit of the register is shifted past bit 31 of `int`, which C leaves undefined. The model gives the low-byte result there.
- SdDriver.Driver.Initialize: the argument buffer is written twice in the source. The model allocates a fresh 4-byte buffer with the same contents for CMD8. The buffer is local, so nothing observable changes.
