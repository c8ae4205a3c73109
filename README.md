# K210 SPI transfer engine — a verified Dafny model

This project models the core of the K210 Arduino SPI library, libraries/SPI/SPI.cpp. The core has three parts:

- **The register-level full-duplex transfer engine**, `spi_send_receive_data_standard`. It:
  - checks its bus and length;
  - sets the transfer mode with `spi_set_tmod`;
  - reads the data-frame-size field of CTRLR0 and turns it into a buffer frame width of 1, 2 or 4 bytes (`spi_get_frame_size`);
  - programs CTRLR1, SSIENR and SER;
  - pushes the transmit buffer into the DR port in FIFO-sized bursts of whole frames;
  - when a receive buffer is given, pulls the replies back into it in the same way;
  - finally deselects the slave and disables the controller.
- **The settings part of `SPIClass`**: `beginTransaction`, `setBitOrder`, `setDataMode` and `setClockDivider`.
- **The two single-value transfers of `SPIClass`**: `transfer(uint8_t)` and `transfer16`, which run the engine on one or two bytes.

The model is split into four modules:

- `FrameFormat` (frames.dfy):
  - frame widths;
  - the little-endian view of a byte buffer as DR words, and the bytes a received word is stored as;
  - the burst arithmetic shared by both FIFO loops;
  - the loopback theorem: storing the frames that were sent gives back the bytes that were sent.
- `Registers` (registers.dfy):
  - the register block as a class `SpiRegs` with `ctrlr0`, `ctrlr1`, `ssienr` and `ser` fields (CTRLR1 only ever receives a frame count, so it is a 32-bit number rather than a bit-vector);
  - DR as two sequences: the words written so far, and the words the following reads will return;
  - the `set_bit` read-modify-write and the TMOD and data-frame-size field positions.
- `Engine` (engine.dfy): `spi_set_tmod` and `spi_send_receive_data_standard`, written as methods with the source's loops.
  - The transmit and receive loops are `while` loops with invariants.
  - Each inner `for` loop is its own method.
  - The receive side fills an `array<Byte>` in place.
- `SpiFacade` (spi_class.dfy): `SPIClass` as a class with a mutable `settings` field, and its two transfers. The `transfer16` union is two functions, `Split16` and `Join16`, proved inverse.

The hardware is the environment. The engine reads TXFLR once per transmit burst and RXFLR once per receive burst, so each method takes the sequence of levels those reads observe (each 0..32).

- If a loop still owes bytes after the last observed level, the method returns `StillPolling`. The state it leaves is the state the source keeps polling in: controller enabled and slave selected.
- A failed `configASSERT` is the outcome `AssertFailed`, which changes nothing. Every check comes before the first register write.
- A completed transfer is `Done`.

Each loop is proved against a reference, `Engine.Owed`. Owed applies `Burst` once per observed level: the free entries 32 - TXFLR for the transmit loop, the RXFLR entries for the receive loop. After every poll, the bytes a loop still owes are exactly what Owed gives for the polls so far. A loop finishes exactly when Owed reaches 0 within the observed levels.

The FIFO loops are proved to finish under an explicit condition (`TransmitProgresses`, `ReceiveProgresses`):

- the length is a whole number of frames;
- there are enough observed levels;
- each transmit level leaves at least w free entries, and each receive level shows at least w entries (w is the frame width in bytes).

Without the whole-frames condition, no level sequence makes the loops finish (`FrameFormat.RemainderNeverMoves`).

The receive loop compares RXFLR, a count of FIFO entries, with a count of bytes. On 16- and 32-bit frames, a lone frame in the receive FIFO is therefore never collected (`FrameFormat.LoneFrameNeverCollected`).

More generally, take a receive of 16- or 32-bit frames in which RXFLR never reports more entries than frames are still owed. That is what a controller holding only the replies it owes shows. Such a receive never finishes, however many polls it makes (`Engine.WideReceiveNeverCompletes`, with the Owed clauses of `Engine.Receive`).

So `ReceiveProgresses` holds on 16- and 32-bit frames only when RXFLR over-reports. On a real controller, those receives, and `transfer16` on 16-bit frames, keep polling and never return. The model keeps this behaviour exactly as written.

## Model

| member | source | states |
|---|---|---|
| FrameFormat.FrameSize | libraries/SPI/SPI.cpp:66-73 | the width chosen holds a frame of dataBitLength+1 bits, and no narrower width would; every length from 16 up gets 4 bytes |
| FrameFormat.FrameSizeMonotone | libraries/SPI/SPI.cpp:66-73 | a longer bit length never selects a narrower width |
| FrameFormat.WidthArithmetic | libraries/SPI/SPI.cpp:132-145 | frame offsets, frame counts and leftover bytes are multiplication, division and remainder by the width 1, 2 or 4 |
| FrameFormat.Burst | libraries/SPI/SPI.cpp:128-146 | a burst is at most the free FIFO entries and at most the bytes remaining, is a whole number of frames, pushes no more frames than there are free entries, and is maximal: one more frame would exceed the room or the bytes owed |
| FrameFormat.BurstProgress | libraries/SPI/SPI.cpp:128-146 | a burst moves at least one frame exactly when a whole frame is both available and still owed |
| FrameFormat.RemainderNeverMoves | libraries/SPI/SPI.cpp:126-148 | once fewer bytes than one frame remain, every burst is empty, whatever the FIFO level |
| FrameFormat.LoneFrameNeverCollected | libraries/SPI/SPI.cpp:157-175 | with 16- or 32-bit frames, a receive FIFO holding a single entry yields an empty burst while frames are still owed |
| FrameFormat.BurstAdvance | libraries/SPI/SPI.cpp:133-147 | a burst of whole frames keeps the loop invariant i*w + remaining == len |
| FrameFormat.BurstMovesAFrame | libraries/SPI/SPI.cpp:128-146 | with whole frames owed and room for a frame, a burst moves at least one frame |
| FrameFormat.WideBurstLeavesAFrame | libraries/SPI/SPI.cpp:157-167 | on 16- and 32-bit frames, a burst cut from no more entries than frames are owed leaves at least one frame owed |
| FrameFormat.FrameAtIsLittleEndian | libraries/SPI/SPI.cpp:132-145 | frame k read through a 1-, 2- or 4-byte pointer cast is the little-endian value of bytes k*w .. k*w+w-1 |
| FrameFormat.StoredBytesAreLittleEndian | libraries/SPI/SPI.cpp:161-174 | a received word is cut to 8, 16 or 32 bits and stored as the little-endian bytes of that value |
| FrameFormat.FrameRoundTrip | libraries/SPI/SPI.cpp:132-174 | storing a frame that was read from a buffer writes back the very bytes it was read from |
| FrameFormat.Loopback | libraries/SPI/SPI.cpp:126-179 | storing the first n frames of a buffer, in order, reproduces the buffer's first n*w bytes |
| Registers.SetBits | libraries/SPI/SPI.cpp:92 | bits under the mask take the new value, every other bit keeps its old value |
| Registers.TmodOffset | libraries/SPI/SPI.cpp:79-91 | the TMOD field sits at bit 8 on buses 0-2 and at bit 10 otherwise |
| Registers.BitLength | libraries/SPI/SPI.cpp:105-120 | the data-frame-size field, (ctrlr0 >> 16) & 0x1F on buses 0 and 1 and ctrlr0 & 0x1F on bus 3, is below 32 |
| Registers.TmodKeepsBitLength | libraries/SPI/SPI.cpp:101-121 | programming TMOD does not alter the data-frame-size field the engine reads next |
| Registers.SpiRegs.WriteDr | libraries/SPI/SPI.cpp:135 | a DR write while enabled and selected appends the word to what the controller has been sent |
| Registers.SpiRegs.ReadDr | libraries/SPI/SPI.cpp:164 | a DR read while enabled and selected returns the oldest pending word and consumes it |
| Engine.SetTmod | libraries/SPI/SPI.cpp:75-93 | the bus check passes exactly for buses below 4; then CTRLR0 changes only in the two TMOD bits, which take the mode |
| Engine.FrameCountRegister | libraries/SPI/SPI.cpp:122 | CTRLR1 is the frame count minus one, congruent modulo 2^32 to it, and 0xFFFFFFFF when len is shorter than one frame |
| Engine.SelectMask | libraries/SPI/SPI.cpp:124 | for any chip-select line below 32 the SER value is nonzero, so a slave is selected during the transfer |
| Engine.Room | libraries/SPI/SPI.cpp:128-158 | the room a poll offers is 32 - TXFLR free entries when sending and the RXFLR entries waiting when receiving, never more than 32 |
| Engine.Owed | libraries/SPI/SPI.cpp:126-178 | the reference for both loops: the bytes still owed after one Burst per observed level, never more than len |
| Engine.OwedStaysZero | libraries/SPI/SPI.cpp:126-178 | once nothing is owed, later levels change nothing (the loop has stopped) |
| Engine.NoRoomNoProgress | libraries/SPI/SPI.cpp:126-178 | if no poll offers room for a whole frame, nothing is ever moved and all len bytes stay owed |
| Engine.PollsExhausted | libraries/SPI/SPI.cpp:126-178 | a loop that stopped because nothing is owed or the levels ran out has finished exactly when the reference owes nothing; a length that is not a whole number of frames never finishes; under the progress condition it has finished |
| Engine.WideReceiveNeverCompletes | libraries/SPI/SPI.cpp:155-178 | on 16- and 32-bit frames, when RXFLR never reports more entries than frames are owed, at least one frame stays owed after every poll |
| Engine.PushFrames | libraries/SPI/SPI.cpp:134-145 | one inner transmit loop writes the next count frames to DR, in buffer order |
| Engine.TransmitPoll | libraries/SPI/SPI.cpp:128-147 | one pass of the transmit loop writes exactly Burst(32 - TXFLR, tx_len) bytes as the next frames, so what is owed afterwards is Owed of one more poll; under the progress condition it sends at least one frame |
| Engine.Transmit | libraries/SPI/SPI.cpp:126-148 | the frames written are a buffer-order prefix of tx, within len; after the polls used, the bytes still owed are exactly Owed of those polls, and every poll but the last found bytes owed; it finishes exactly when Owed of all observed levels is 0 and ends early only when the levels run out; a length that is not a whole number of frames never completes; under the progress condition all len/w frames are sent |
| Engine.StoreFrame | libraries/SPI/SPI.cpp:161-174 | storing frame k writes its stored bytes at offset k*w and leaves every other byte of rx_buff alone |
| Engine.PullFrame | libraries/SPI/SPI.cpp:163-173 | one DR read while enabled consumes the next reply and stores it as frame i after the frames already received |
| Engine.PullFrames | libraries/SPI/SPI.cpp:163-173 | one inner receive loop consumes the next count replies and stores them, in order, after the frames already received |
| Engine.ReceivePoll | libraries/SPI/SPI.cpp:157-177 | one pass of the receive loop reads exactly Burst(RXFLR, rx_len) bytes' worth of replies and stores them as the next frames, so what is owed afterwards is Owed of one more poll |
| Engine.Receive | libraries/SPI/SPI.cpp:152-179 | the replies consumed are a prefix of the pending words; rx_buff holds their stored bytes followed by its old contents; after the polls used, the bytes still owed are exactly Owed of those polls; it finishes exactly when Owed of all observed levels is 0; a length that is not a whole number of frames never completes; when every poll shows at least w entries (on 16- and 32-bit frames, only if RXFLR over-reports) all len/w replies are stored |
| Engine.Configure | libraries/SPI/SPI.cpp:101-124 | set-up changes only the TMOD bits of CTRLR0, to transmit-and-receive, derives the width from the unchanged bit-length field, sets CTRLR1 to the frame count register, enables the controller and selects the slave |
| Engine.Exchange | libraries/SPI/SPI.cpp:126-181 | the data phase: it completes exactly when Owed is 0 for the transmit levels and, with rx_buff present, for the receive levels; on completion exactly len/w frames were sent and, with rx_buff present, len/w replies stored, with ser and ssienr cleared; while polling, the controller stays enabled and selected; DR is never read without rx_buff; bytes from len on are untouched |
| Engine.SendReceiveDataStandard | libraries/SPI/SPI.cpp:94-182 | AssertFailed exactly on a bad bus or len == 0, with no state change; otherwise CTRLR0 changed only in TMOD and CTRLR1 the frame count register; completion exactly when the Owed references reach 0; the SSIENR and SER values, the words sent and the bytes stored, per outcome |
| Engine.LoopbackTransfer | libraries/SPI/SPI.cpp:94-182 | when the slave echoes every frame, a completed transfer leaves rx_buff[0..len) equal to tx_buff[0..len) |
| SpiFacade.SplitJoin | libraries/SPI/SPI.cpp:271-283 | the union's two readings are inverse, and they are the little-endian bytes and value of the 16-bit word |
| SpiFacade.ShortReply | libraries/SPI/SPI.cpp:282-283 | a 16-bit reply stored and read back through the union is the low 16 bits of the DR word |
| SpiFacade.SplitFrames | libraries/SPI/SPI.cpp:281-282 | transfer16 sends the low byte then the high byte on 8-bit frames, and the whole value on 16-bit frames |
| SpiFacade.SpiClass.constructor | libraries/SPI/SPI.cpp:189-197 | the object after begin holds the bus, the chip-select pin, its register block and its settings |
| SpiFacade.SpiClass.BeginTransaction | libraries/SPI/SPI.cpp:239-242 | the settings are replaced wholesale |
| SpiFacade.SpiClass.SetBitOrder | libraries/SPI/SPI.cpp:248-251 | only the bit order changes |
| SpiFacade.SpiClass.SetDataMode | libraries/SPI/SPI.cpp:252-255 | only the data mode changes |
| SpiFacade.SpiClass.SetClockDivider | libraries/SPI/SPI.cpp:257-260 | only the clock changes, to the 8-bit argument |
| SpiFacade.SpiClass.Transfer | libraries/SPI/SPI.cpp:262-267 | AssertFailed exactly on a bad bus; otherwise CTRLR0 changed only in TMOD (so the width survives) and CTRLR1 programmed for one byte; completion exactly when Owed reaches 0 for both loops; deselected and disabled on completion, still enabled and selected while polling; on 8-bit frames it sends data and returns the low byte of the one reply; on wider frames it never completes |
| SpiFacade.SpiClass.Transfer16 | libraries/SPI/SPI.cpp:269-284 | AssertFailed exactly on a bad bus; otherwise the same register effects as Transfer for two bytes; 8-bit frames send [v & 0xFF, v >> 8] and return lo + hi*256 of the two replies; 32-bit frames never complete; on 16-bit frames it never completes while RXFLR reports at most the one reply owed, and only if RXFLR over-reports does it complete, sending v and returning the low 16 bits of the reply |
| SpiFacade.Transfer16Polling | libraries/SPI/SPI.cpp:269-284 | whether transfer16 completes, from the engine's Owed account: never on 32-bit frames, never on 16-bit frames while RXFLR shows at most one entry, always on 8- and 16-bit frames under the progress conditions |
| SpiFacade.Transfer16Result | libraries/SPI/SPI.cpp:269-284 | a completed transfer16 sent the value's frames and reads back the union of the stored replies: lo + hi*256 of two byte replies, or the low 16 bits of one 16-bit reply |
| SpiFacade.EchoTransfer16 | libraries/SPI/SPI.cpp:269-284 | with an echoing slave on 8-bit frames, transfer16 returns the value it sent |

## Left out

- Vendor bring-up, `io_set_power`, `SPIClass::init` and the PLL, DMA, pin-mux, `spi_init`, clock-rate and GPIO calls in `begin`: none of it has logic to verify. `SpiFacade.SpiClass.constructor` stands for the object after `begin` has stored its pins.
- The bulk `transfer(void *, size_t)`: it only forwards to `spi_send_data_standard`, which is not part of this model.
- `end`, `endTransaction`, `usingInterrupt`, `notUsingInterrupt`, `attachInterrupt` and `detachInterrupt`: their bodies are empty, so they change nothing.
- The status-register wait, `(sr & 0x05) != 0x04`: it depends on hardware timing and is taken to return.
- Volatile access, real FIFO draining and hardware timing:
  - FIFO levels are inputs, one per poll, each 0..32;
  - a loop whose observed levels run out reports `StillPolling` instead of spinning;
  - there is no timeout.
- Byte order: the pointer casts on `tx_buff` and `rx_buff` are fixed as little-endian, as on the K210. The model has no alignment requirement.
- `SPI_TMOD_TRANS_RECV`, the SDK's transfer-mode value, is taken as 0. The header defining it is not part of this model.
- Arithmetic widths:
  - `len` is an unbounded natural;
  - `FrameCountRegister` writes out the 32-bit truncation of `ctrlr1`.
- Engine.Transmit: the frame index `i` is 32 bits in the source; the model does not wrap it at 2^32 frames, which would take a buffer beyond the chip's memory.
- Engine.Receive: the same holds for `i` in the receive loop.
- Engine.SendReceiveDataStandard:
  - it requires `chip_select < 32`, because `1U << chip_select` is undefined otherwise;
  - with `rx_buff` present, it requires that DR has a reply waiting for every frame the loop can read, since the model has no empty-FIFO read.
- SpiFacade.SpiClass.Transfer: it requires `_spi_cs < 32`, inherited from the engine's `1U << chip_select`. `_spi_cs` is a pin number, also handed to `fpioa_set_function`, so nothing in the source bounds it; the model leaves the undefined shift out.
- SpiFacade.SpiClass.Transfer16: the same `_spi_cs < 32` requirement, for the same reason.
- SpiFacade.SpiClass.Transfer: the source's `ret` is uninitialised and is returned as is. The model's one-byte receive buffer starts at 0, and the contract only speaks of `ret` on a completed transfer.
- The settings kept by `SPIClass` are not pushed to the controller by any modelled operation, as in the source, where only `init` uses them.
