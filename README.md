# nRF24L01+ over-the-air firmware update, modelled in Dafny

The system updates the firmware of an ATxmega board over an nRF24L01+ radio
link. It has two halves.

- **The receiver** (`receiver/receiver.c`) runs on the board.
  - `process_data` is a four-command state machine. It is driven by packets arriving on radio pipe 1:
    - `'B'` copies a chunk into a one-page buffer at a little-endian offset.
    - `'e'` erases the xboot bootloader's temporary flash region.
    - `'m'` pads the page with 0xFF and writes it at the current address.
    - `'w'` compares xboot's CRC of the region with the one in the packet, installs the image and resets into the bootloader.
  - `set_device_info` publishes an 8-byte identity record as the auto-ack payload of pipe 2.
  - `process_incoming_data` drains the radio's receive queue and routes each packet by its pipe.
  - `loop` reacts to the radio's interrupt status and to an escape byte on the serial line.
- **The uploader** (`sender/upload_ota.py`) runs on a host behind a serial radio bridge.
  - It reads the identity record and checks it against its part table.
  - It pads the image with 0xFF to the application size and computes a table-driven CRC-16/ARC.
  - It sends `'e'`, then for every page 29-byte `'B'` chunks and an `'m'`, and finally `'w'` with the CRC.
  - Each packet is framed for the bridge as `'W'`, a length byte and the packet.

The model has eight modules.

| module | file | what it holds |
|---|---|---|
| `Bytes` | `bytes.dfy` | Byte and 16-bit encodings, and sequence slicing and flattening. |
| `Protocol` | `protocol.dfy` | The command tags and the 32-byte radio payload limit. |
| `FirmwareUpdate` | `firmware_update.dfy` | `process_data` as functions on a session value and a flash-backend value, with the properties of each command. |
| `UpdateSessions` | `update_session.dfy` | The same state machine as the receiver runs it. The statics are fields of a class, the page buffer is an `array`, and the xboot calls go to an object. Each method is proved to do what the functional model says. |
| `ReceiverApp` | `receiver.dfy` | The addresses and the identity record. The radio driver is an object. The dispatcher is a `while` loop, proved against a functional drain, and the polling loop is a step. |
| `Crc16` | `crc16.dfy` | The uploader's table, its `crc16` loop, and a bit-at-a-time CRC-16/ARC reference. It proves that every table entry is generated by the reference, so the loop computes CRC-16/ARC. |
| `Upload` | `upload.dfy` | The uploader: `read_data`, `send_data`, the identity decode, `set_address` and `send_packet`. |
| `EndToEnd` | `end_to_end.dfy` | The packets the uploader sends, fed through `process_data`. They leave the image padded with 0xFF in the temporary region, and the uploader's CRC is the CRC-16/ARC of that region. |

The xboot backend and the radio driver are not part of this model. Every call into them takes the answer it gives as a parameter.

- A functional step is given an `Answers` record: whether the erase, the write and the install succeed, and the CRC xboot computes over the region.
- The flash side is a map of the pages written since the last erase, a list of the CRCs passed to `xboot_install_firmware`, and a count of `xboot_reset` calls.
- A node with a non-zero reset count is halted. The dispatcher stops there, because `xboot_reset` does not return.

## Model

| member | source | states |
|---|---|---|
| `FirmwareUpdate.Initial` | receiver/receiver.c:191-194 | The statics start at `addr = 0`, not committed and offset 0, and nothing has been written, installed or reset. |
| `FirmwareUpdate.Overwrite` | receiver/receiver.c:224-226 | The `memcpy` into the page buffer: bytes from `at` for the chunk's length become the chunk, and every other byte keeps its value. |
| `FirmwareUpdate.PadFrom` | receiver/receiver.c:252-258 | The `memset`: bytes from `buffer_offset` to the end of the page become 0xFF, only when the offset is inside the page, and the bytes before it are kept. |
| `FirmwareUpdate.AppendLengthAsWritten` | receiver/receiver.c:211 | `len -= 3` on a `uint8_t` gives `len - 3` for `len >= 3` and `len + 253` below 3. |
| `FirmwareUpdate.AppendGuardAsWrittenOverreads` | receiver/receiver.c:207-224 | For a 1- or 2-byte `'B'`, the written guard passes exactly when the offset is at most `3 - len`. The copy then ends 256 bytes past the end of the packet. |
| `FirmwareUpdate.AppendGuardIntended` | receiver/receiver.c:219-222 | The corrected guard agrees with the written one on every packet of 3 bytes or more. Every copy it accepts ends inside both the packet and the page. |
| `FirmwareUpdate.Append` | receiver/receiver.c:207-227 | `'B'` under three conditions. With fewer than 3 bytes nothing changes. When rejected, only `buffer_offset` changes, and it takes the packet's offset. When accepted, `[offset, offset+n)` takes the chunk and every other byte is unchanged, `buffer_offset = offset + n`, the page is uncommitted, and `addr` and the backend are unchanged. |
| `FirmwareUpdate.AppendAsWritten` | receiver/receiver.c:207-227 | `'B'` as the code runs it, reading the offset and chunk from the packet and the memory after it, with the wrapped length. A rejected packet only moves `buffer_offset`. An accepted one copies the bytes from the offset for the wrapped length, clears the committed flag and moves the offset past the copy. `addr` and the backend are unchanged. |
| `FirmwareUpdate.AppendAsWrittenAgrees` | receiver/receiver.c:207-227 | On every packet of 3 bytes or more, the code as written and the corrected `Append` give the same state, whatever follows the packet in memory. |
| `FirmwareUpdate.ShortAppendAsWrittenCopies` | receiver/receiver.c:207-226 | As written, a one-byte `'B'` followed in memory by two zero bytes copies 254 bytes from beyond the packet into the page buffer, clears the committed flag and sets the offset to 254. The corrected `Append` leaves the state unchanged, and the two differ whenever the page was committed or the offset was not already 254. |
| `FirmwareUpdate.Erase` | receiver/receiver.c:228-239 | `'e'`: on success the session is at address 0, offset 0 and uncommitted, whatever came before, and no page is written. On failure nothing changes. |
| `FirmwareUpdate.Commit` | receiver/receiver.c:241-267 | `'m'` on a committed page changes nothing. Otherwise the buffer is padded, and the padding stays even if the write fails. On success the padded page is written at `addr`, `addr` advances one page modulo 2^32, and the page is committed with offset 0. On failure nothing else changes. |
| `FirmwareUpdate.Finalize` | receiver/receiver.c:269-308 | `'w'` never touches the session or the pages. It changes nothing when shorter than 3 bytes or when xboot's CRC differs from the little-endian target. On a match it records one install with that CRC, and one reset only if the install succeeds. |
| `FirmwareUpdate.Step` | receiver/receiver.c:189-310 | `process_data` keeps `addr` a multiple of the page size and installs at most once per packet. An install comes only from a 3-byte-or-longer `'w'` whose target equals xboot's CRC. A reset comes only with a successful install. An empty packet or an unknown tag changes nothing. |
| `FirmwareUpdate.CommitTwice` | receiver/receiver.c:246-267 | `'m'` twice with no `'B'` between writes one page and advances `addr` by exactly one page. |
| `FirmwareUpdate.RetransmitIsHarmless` | receiver/receiver.c:207-267 | A `'B'`, a successful `'e'`, or an `'m'` after a successful write, delivered a second time, leaves the same state as the first delivery. |
| `FirmwareUpdate.EraseResets` | receiver/receiver.c:228-239 | A successful `'e'` resets `addr`, the committed flag, the offset and the written pages from any state. |
| `UpdateSessions.Xboot.AppTempErase` | receiver/receiver.c:229-233 | A successful erase forgets every written page; a failed one changes nothing; the answer is returned. |
| `UpdateSessions.Xboot.AppTempWritePage` | receiver/receiver.c:261-264 | A successful write records the array's contents at the address; a failed one changes nothing. |
| `UpdateSessions.Xboot.InstallFirmware` | receiver/receiver.c:300-303 | Every call is recorded with its CRC. |
| `UpdateSessions.Xboot.Reset` | receiver/receiver.c:308 | Counts one reset. |
| `UpdateSessions.UpdateSession.constructor` | receiver/receiver.c:191-194 | The in-place session starts as `FirmwareUpdate.Initial`. |
| `UpdateSessions.UpdateSession.ProcessData` | receiver/receiver.c:189-310 | `process_data` in place leaves the statics, the buffer array and the backend equal to `FirmwareUpdate.Step` of the old state. |
| `UpdateSessions.UpdateSession.AppendChunk` | receiver/receiver.c:207-227 | The `'B'` branch, updating the array in place, equals `FirmwareUpdate.Append`. |
| `UpdateSessions.UpdateSession.CommitPage` | receiver/receiver.c:241-267 | The `'m'` branch, padding the array in place, equals `FirmwareUpdate.Commit`. |
| `ReceiverApp.Pipe2Address` | receiver/receiver.c:139-151 | Pipe 2 is configured with the last byte of `info_address` only, and inherits the rest from pipe 1. Its address is therefore `info_address`, which differs from `boot_address` in the last byte alone. |
| `ReceiverApp.DeviceInfo` | receiver/receiver.c:117-137 | The record has 8 bytes: `'s'`, then signature bytes 2, 1 and 0, the page size big-endian, and the image size in pages big-endian truncated to 16 bits. |
| `ReceiverApp.Deliver` | receiver/receiver.c:348-356 | One packet bumps the 8-bit counter. Pipe 1 takes one `process_data` step, pipe 2 re-publishes the identity record, and any other pipe changes nothing else. |
| `ReceiverApp.Drain` | receiver/receiver.c:314-361 | Packets are processed in queue order. Those left are a suffix of the queue, and some are left only when an install reset the node. |
| `ReceiverApp.DrainCounts` | receiver/receiver.c:348 | The counter grows by the number of packets taken, modulo 256. |
| `ReceiverApp.DrainRoutes` | receiver/receiver.c:350-356 | Only the identity record is ever published on pipe 2. With no pipe-1 packet, the update state is untouched. |
| `ReceiverApp.Radio.GetPacket` | receiver/receiver.c:326-330 | `nordic_get_packet` returns the oldest queued packet and removes it, or none when the queue is empty. |
| `ReceiverApp.Radio.SetAckPayload` | receiver/receiver.c:136 | Records the ack payload of the given pipe; nothing else changes. |
| `ReceiverApp.Radio.SetRxAddr` | receiver/receiver.c:382 | Records the receive address of the given pipe; nothing else changes. |
| `ReceiverApp.Radio.StartListening` | receiver/receiver.c:383 | The radio listens; nothing else changes. |
| `ReceiverApp.Radio.FlushTx` | receiver/receiver.c:376 | Counts one TX flush; nothing else changes. |
| `ReceiverApp.Receiver.constructor` | receiver/receiver.c:143-152 | Pipes 0, 1 and 2 get the broadcast address, the boot address and the last byte of the info address. The identity record is the pipe-2 ack payload, and the update session is initial. |
| `ReceiverApp.Receiver.SetDeviceInfo` | receiver/receiver.c:117-137 | Pipe 2's ack payload becomes `DeviceInfo`, whatever the update state; the radio is otherwise unchanged. |
| `ReceiverApp.Receiver.Dispatch` | receiver/receiver.c:335-356 | One packet through the objects equals `Deliver` on the model, and leaves the queue, the addresses and the flags alone. |
| `ReceiverApp.Receiver.ProcessIncomingData` | receiver/receiver.c:314-361 | The drain loop leaves the node and the queue as `Drain` says, and changes nothing else. |
| `ReceiverApp.Receiver.Loop` | receiver/receiver.c:363-406 | The interrupt flag is always cleared. With the flag set: MAX_RT flushes TX, and MAX_RT or TX_DS re-arms the broadcast address on pipe 0 and listens. RX_DR drains the queue as `Drain` does. Without the flag, nothing radio-related changes. An escape byte 0x1B requests one reset. |
| `Crc16.CrcTableShaped` | sender/upload_ota.py:13-46 | The table has 32 lines of 8 entries. |
| `Crc16.Checksum` | sender/upload_ota.py:48-56 | `crc16` of the empty input is 0; every result is in `0..0xFFFF` by its type. |
| `Crc16.Crc16` | sender/upload_ota.py:48-56 | The accumulator loop returns `Checksum(data)`. |
| `Crc16.TableLoop` | sender/upload_ota.py:51-54 | After `i` bytes the accumulator is the table fold over the first `i` bytes. |
| `Crc16.MaskIsNoop` | sender/upload_ota.py:54 | The `& 0xffff` mask never changes a value the loop computes, so 16-bit arithmetic is exact. |
| `Crc16.ChecksumAppend` | sender/upload_ota.py:51-54 | `crc16(a + b)` is the loop over `b` started from `crc16(a)`. |
| `Crc16.FoldAppend` | sender/upload_ota.py:51-54 | The fold over `a + b` continues from the fold over `a`. |
| `Crc16.CrcAppend` | sender/upload_ota.py:51-54 | The table register over `a + b` continues from the register over `a`, for any start value. |
| `Crc16.ShiftStepIsReflectedPoly` | sender/upload_ota.py:11-12 | One reference bit step shifts right and XORs in 0xA001 exactly when the bit shifted out is 1. |
| `Crc16.TableIsBitwise` | sender/upload_ota.py:13-46 | Every table entry `i` equals eight reflected bit steps from `i`. |
| `Crc16.CrcTableGenerated` | sender/upload_ota.py:11-46 | The whole table is generated by the bitwise CRC-16/ARC step. |
| `Crc16.StepIsBitwise` | sender/upload_ota.py:53-54 | With a generated table, one pass of the loop body is one bitwise byte step. |
| `Crc16.TableCrcIsBitwise` | sender/upload_ota.py:48-56 | With a generated table, the table loop computes the bitwise CRC from every start value and on every input. |
| `Crc16.ChecksumIsBitwise` | sender/upload_ota.py:11-56 | `crc16` is the bit-at-a-time CRC-16/ARC of its input. |
| `Crc16.CheckValue` | sender/upload_ota.py:11-56 | `crc16` of ASCII "123456789" is 0xBB3D, the catalogue check value of CRC-16/ARC. |
| `Upload.PaddedImage` | sender/upload_ota.py:127-130 | The image, followed by `app_size - len` bytes of 0xFF, or by none when that is not positive. |
| `Upload.ReadData` | sender/upload_ota.py:122-132 | Returns the image unpadded. |
| `Upload.ReadDataUnpadded` | sender/upload_ota.py:127-130 | An image at least as large as the application size gets no padding: its CRC is `crc16` of the image. |
| `Upload.ReadDataResumes` | sender/upload_ota.py:127-130 | The CRC sent is `crc16` of the image, continued over the 0xFF padding. |
| `Upload.DataPacket` | sender/upload_ota.py:224-228 | A `'B'` packet is `'B'`, the offset little-endian (decoded back by the receiver's reading), then the chunk. |
| `Upload.FinalizePacket` | sender/upload_ota.py:240 | The `'w'` packet has 3 bytes, and its little-endian field decodes back to the CRC. |
| `Upload.PagePlan` | sender/upload_ota.py:216-233 | One packet group for each of the `ceil(len / page_size)` pages. |
| `Upload.SendPackets` | sender/upload_ota.py:192-241 | The traffic starts with `'e'` and ends with `'w'` carrying the CRC. |
| `Upload.SendData` | sender/upload_ota.py:192-243 | The nested loops send exactly `SendPackets`, and `transmitted` ends at the image length. |
| `Upload.SendChunks` | sender/upload_ota.py:218-230 | The chunk loop of one page sends the `'B'` packets at offsets 0, 29, 58, …, and `page_offset` ends at the page length. |
| `Upload.SendPacketsWhole` | sender/upload_ota.py:216-241 | The traffic is `'e'`, every page's packets and `'w'`, and the pages together are as long as the image. |
| `Upload.ChunkPacketDeliverable` | sender/upload_ota.py:220-228 | Each `'B'` packet fits a 32-byte payload and its chunk ends inside the page. |
| `Upload.SentPacketsDeliverable` | sender/upload_ota.py:198-241 | Every packet sent fits one radio payload. Every `'B'` chunk is non-empty and ends inside its page, so the receiver's overflow guard never rejects it. |
| `Upload.PayloadsAppend` | sender/upload_ota.py:220-230 | The chunks of `a + b` are those of `a`, then those of `b`. |
| `Upload.CommitsAppend` | sender/upload_ota.py:232-233 | The `'m'` count of `a + b` is the sum of the counts. |
| `Upload.Single` | sender/upload_ota.py:224-233 | One packet contributes its chunk, and counts one commit exactly when it is `'m'`. |
| `Upload.ChunkPayloadsPrefix` | sender/upload_ota.py:220-228 | The first `k` `'B'` packets of a page carry the first `k` chunks in order, and no `'m'`. |
| `Upload.PagePayloads` | sender/upload_ota.py:218-233 | One page's packets carry exactly the page and one `'m'`. |
| `Upload.PlanPayloadsPrefix` | sender/upload_ota.py:216-233 | The first `j` pages' packets carry the first `j` pages and `j` commits. |
| `Upload.SentPayloads` | sender/upload_ota.py:192-241 | The chunks of all traffic, concatenated, are the image. The number of `'m'` packets is `ceil(len / page_size)`. |
| `Upload.PartConfig` | sender/upload_ota.py:245-256 | Only the two named parts are known. Each has a 3-byte id and 256-byte pages, and half its application section is a whole number of pages. |
| `Upload.DecodeDeviceInfo` | sender/upload_ota.py:152-186 | The error cases: a length other than 8, data that does not unpack as 8 bytes, and a tag other than `'s'`. It succeeds exactly when the device id, the page size and half the application section match. It then yields the page size and `pages * page_size`. |
| `Upload.FirstReport` | sender/upload_ota.py:145-152 | The index of the first `R(` line, with every line before it something else. |
| `Upload.GetDeviceInfo` | sender/upload_ota.py:141-188 | Ten queries of three reads each. The first report decides the result, whether it decodes or raises, and no report gives "Unable to contact". The number of queries is stated. |
| `Upload.Split` | sender/upload_ota.py:135 | `str.split(':')` yields at least one field. |
| `Upload.SplitAtColon` | sender/upload_ota.py:135 | The first field ends at the first `:`. |
| `Upload.SplitNoColon` | sender/upload_ota.py:135 | A string without `:` is one field. |
| `Upload.HexValue` | sender/upload_ota.py:135 | `int(s, 16)` parses exactly the non-empty strings of hex digits. |
| `Upload.HexValues` | sender/upload_ota.py:135 | The list comprehension succeeds iff every field parses, and then holds each field's value. |
| `Upload.SetAddressCommand` | sender/upload_ota.py:134-136 | Succeeds iff there are exactly five fields, each hex and below 256. The command is then `'A'` and the five values. |
| `Upload.HexByte` | sender/upload_ota.py:263-268 | Two hex digits without `:` that parse back to the byte. |
| `Upload.SplitJoin` | sender/upload_ota.py:135 | Splitting fields joined by `:` gives back the fields. |
| `Upload.AddressRoundTrip` | sender/upload_ota.py:134-136 | Every 5-byte address, written as five hex fields, makes `set_address` send `'A'` and exactly those bytes. |
| `Upload.CommandOfFields` | sender/upload_ota.py:134-136 | Five fields that parse to the address bytes give `'A'` and those bytes. |
| `Upload.Frame` | sender/upload_ota.py:62 | `'W'`, a length byte and the packet. It fails (`struct.error`) exactly when the length does not fit a byte. |
| `Upload.FramingInverse` | sender/upload_ota.py:62 | Framing and unframing are inverse in both directions. |
| `Upload.FirstSuccess` | sender/upload_ota.py:61-78 | The index of the first `success` reply, with every earlier reply a failure. |
| `Upload.SendPacket` | sender/upload_ota.py:58-78 | Writes the frame once per reply up to and including the first success. It returns the number of retransmits, which is the number of failures before it. An unframeable packet writes nothing. |
| `EndToEnd.FeedAppend` | receiver/receiver.c:314-361 | Processing `x + y` continues from where `x` stopped. |
| `EndToEnd.FeedSnoc` | receiver/receiver.c:350-352 | One more packet that fits the radio is one more `process_data` step. |
| `EndToEnd.FeedCons` | receiver/receiver.c:350-352 | Processing `[p] + y` is one `process_data` step on `p`, then `y`. |
| `EndToEnd.FeedPipeCons` | receiver/receiver.c:350-352 | Processing a queue's payloads is one step on the first payload, then the payloads of the rest. |
| `EndToEnd.OnlyFinalizeResets` | receiver/receiver.c:189-310 | A packet that is not a `'w'` leaves the reset count unchanged. |
| `EndToEnd.DrainCons` | receiver/receiver.c:326-356 | While the processor has not been reset, the loop delivers the first queued packet and goes on with the rest. |
| `EndToEnd.DrainFeeds` | receiver/receiver.c:314-361 | Take a queue of pipe-1 packets that all meet the same answers, with no `'w'` before the last and no reset at the start. Draining it takes every packet, leaves the update state equal to processing the payloads in order, and leaves the identity record alone. |
| `EndToEnd.DrainIsFeed` | receiver/receiver.c:314-361 | For the same queue, the counter also grows by the number of packets, modulo 256. |
| `EndToEnd.PageImage` | receiver/receiver.c:252-258 | A page lands as its bytes, then 0xFF to the end of the page. |
| `EndToEnd.ChunkAppends` | receiver/receiver.c:207-227 | The uploader's `k`-th chunk of a page is accepted. It extends the loaded prefix of the buffer and leaves `addr` and the backend alone. |
| `EndToEnd.ChunksLoad` | receiver/receiver.c:207-227 | The first `k` `'B'` packets of a page load its first `k` chunks into the buffer. |
| `EndToEnd.CommitLoaded` | receiver/receiver.c:241-267 | `'m'` after a full page writes the page padded with 0xFF at `addr` and advances one page. |
| `EndToEnd.PageLoads` | receiver/receiver.c:207-267 | A page's packets write the padded page at `addr` and move to the next page. |
| `EndToEnd.ImagePacketsSnoc` | sender/upload_ota.py:216-233 | The packets of `j` pages are those of `j - 1` pages, then page `j`'s. |
| `EndToEnd.HoldsNext` | receiver/receiver.c:261-267 | Writing page `j` at its address extends the set of pages held. |
| `EndToEnd.NextPageAddress` | receiver/receiver.c:265-267 | For page `j` ≤ 65535, the address after page `j - 1` is `256·j`, with no wrap of `addr + 256`. |
| `EndToEnd.ImageLoads` | receiver/receiver.c:189-310 | `'e'` and `j` pages' packets leave exactly those pages written, each at its address, with `addr` at the next page and no install or reset. |
| `EndToEnd.Region` | receiver/receiver.c:291-297 | The temporary region, read as xboot would, has the application size. |
| `EndToEnd.RegionIsPadded` | sender/upload_ota.py:127-130 | With the image's pages written, the region reads as the image padded with 0xFF. |
| `EndToEnd.FinalizeChecks` | receiver/receiver.c:269-308 | The uploader's `'w'` installs with its CRC exactly when xboot's CRC equals it, and otherwise changes nothing. |
| `EndToEnd.UploadInstallsImage` | sender/upload_ota.py:192-243 | The whole upload, through `process_data` with a succeeding backend, leaves the region equal to the padded image. If xboot's CRC is the CRC-16/ARC of the region, the node installs with the uploader's CRC and resets. Any other answer installs nothing. |
| `EndToEnd.SenderTrafficAccepted` | sender/upload_ota.py:216-233 | Every packet of the upload fits the radio, and the receiver's `'B'` guard accepts every chunk. |
| `EndToEnd.IdentityDecodes` | sender/upload_ota.py:152-186 | The uploader accepts the receiver's record exactly when signature, page size and half the application section match, and then learns the board's page size and image size. |
| `EndToEnd.Atxmega32a4uDecodes` | sender/upload_ota.py:245-252 | A 32A4U board's record is accepted by the uploader's 32A4U entry. |
| `EndToEnd.BootAddressText` | sender/upload_ota.py:264 | The default boot address option is `boot_address` in hex. |
| `EndToEnd.InfoAddressText` | sender/upload_ota.py:267 | The default info address option is `info_address` in hex. |
| `EndToEnd.DefaultAddresses` | sender/upload_ota.py:263-268 | `set_address` of the two default options sends the receiver's `boot_address` and `info_address`. |

## Left out

- The xboot bootloader's code is not part of this model. Erase, page write, temporary-region CRC, install and reset are parameters of each step, or recorded calls on an object.
  - `UploadInstallsImage` takes as a hypothesis that xboot's CRC of the region is CRC-16/ARC.
- The nordic radio driver is not part of this model.
  - The decoded interrupt status and the packet queue are inputs.
  - A packet longer than the 32-byte payload never reaches `process_data`.
- `spi.c` is hardware register I/O. `setup_pins`, `setup_clock`, `setup`, `blink`, `main` and the radio-channel part of `nordic_setup` are register configuration.
- The interrupt service routine is a boolean field of the receiver, not concurrency.
- The software reset on the serial escape byte is a counter; the serial line is an input.
- Serial debug strings, the LED toggle, and the `DEBUG_CRC` and `DEBUG_PACKET_BYTES` blocks are compiled out and not modelled. The `DEBUG_CRC` block would overwrite `addr`.
- The uploader's serial I/O is given as inputs: the bridge's reply lines to `get_device_info`, and the `success` replies to `send_packet`.
  - Parsing the bridge's `R(len,pipe):data` lines into a length and data bytes is given as the `Line` input.
  - So is the loop that skips empty lines.
  - `serial_connect`, `intelhex`, `argparse` and the progress bar are left out.
- FirmwareUpdate.Append: a `'B'` of 1 or 2 bytes changes nothing. The code instead reads the offset and the chunk from memory past the packet and may copy up to 255 bytes from there. That behaviour is `FirmwareUpdate.AppendAsWritten`, listed under Findings.
- FirmwareUpdate.Step: uses the corrected `Append` for 1- and 2-byte `'B'` packets, as above.
- UpdateSessions.UpdateSession.AppendChunk: runs the corrected guard in place, so it matches `FirmwareUpdate.Append` and not the out-of-packet copy.
- UpdateSessions.UpdateSession.ProcessData: a `'B'` of 1 or 2 bytes leaves the state unchanged, because the `'B'` branch is `AppendChunk` with the corrected guard. The code as written copies from memory past the packet; see Findings.
- FirmwareUpdate.PAGE_SIZE: `SPM_PAGESIZE` is fixed at 256. Both parts in the uploader's part table have 256-byte pages; other page sizes are not modelled.
- ReceiverApp.Pipe2Address: assumes the radio driver configures pipe 2 with `info_address[4]` as its low byte and takes the other four bytes from pipe 1, as the nRF24L01+ does. The driver's code is not part of this model.
- Upload.SendData: does not accumulate `total_retransmits`. The packets are returned in order, and each one's retries belong to `SendPacket`.
- Upload.HexValue: accepts exactly non-empty strings of hex digits. `int(s, 16)` also accepts a sign, surrounding whitespace, a `0x` prefix and underscores; those spellings are not modelled.
- EndToEnd.Feed: every packet meets the same backend answers. The per-packet answers of the dispatcher are in `ReceiverApp.Drain`, and `EndToEnd.DrainIsFeed` ties the two together when all the answers are the same.
- EndToEnd.UploadInstallsImage: assumes the image fits the temporary region (`|raw| <= appSize`). The uploader does not check this: `read_data` only pads a short image, and `send_data` sends every page of a longer one. It also assumes at most 65535 pages, so that `addr` does not wrap.

## Findings

| source | as written | input that shows it | evidently intended | confidence | as-written member | corrected member |
|---|---|---|---|---|---|---|
| receiver/receiver.c:207-224 | The `'B'` branch subtracts 3 from the `uint8_t` length with no check that the packet has 3 bytes. It reads the offset from bytes 1 and 2, stores it, and tests only `offset + len > SPM_PAGESIZE` before `memcpy`. | A 1-byte packet `'B'` whose following memory holds offset 0: `len` wraps to 254, `0 + 254 <= 256` passes, and `memcpy` copies 254 bytes from a 1-byte packet. | A `'B'` shorter than 3 bytes is rejected like a short `'w'`, and the copy never leaves the packet. | not executed | `FirmwareUpdate.ShortAppendAsWrittenCopies` | `FirmwareUpdate.AppendGuardIntended` |

The corrected guard is the one `FirmwareUpdate.Append` and `UpdateSessions.UpdateSession.AppendChunk` use. The code as written is `FirmwareUpdate.AppendAsWritten`, and `FirmwareUpdate.AppendAsWrittenAgrees` shows the two agree on every packet of 3 bytes or more. `FirmwareUpdate.AppendGuardAsWrittenOverreads` states the guard arithmetic alone.

A rejected `'B'` of 3 bytes or more still moves `buffer_offset` to the offset it carried. That is what the code does, because the offset is stored before the overflow test. The model follows the code here.
