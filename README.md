# SPI-bridge host protocol, modelled in Dafny

This project models the host side of the serial protocol that drives the SPI-bridge
microcontroller, as written in `arduino/spibridge/test_bridge.py`.

The host builds request frames of this shape:

    0xAB 0xCD | opcode | length (big-endian 16 bit) | payload | CRC (big-endian 16 bit)

The CRC is a table-driven CRC-16. It uses polynomial 0x1021 and seed 0xFFFF, the catalogue variant CRC-16/CCITT-FALSE, and it covers the frame without its sync word and without itself.

Each command follows the same sequence:

1. Discard any input already waiting on the serial port.
2. Write the request.
3. Read a fixed number of reply bytes: as many as it wrote for the LED and SPI commands, 24 for the version, 9 for the GPIO levels.
4. Interpret the reply. `set_led` compares it byte for byte with the request. `read_version`, `read_gpio` and `spi_transfer` (and through it `read_register`) gate on the opcode at byte 2.

The model has five modules:

- `Crc16` (`crc16.dfy`) holds the host's 256-entry table and the one-byte update `crc16_floating`.
  - `crc16_buff` is a loop method, specified by a fold of the update.
  - A bitwise long-division reference is included. The model proves the table equals the remainders of that division, so the table-driven fold computes the bitwise CRC for every seed and input.
  - Also proved: the concatenation law, the check value 0x29B1 for ASCII `123456789`, and that any single changed byte changes the checksum.
- `Bytes` (`bytes.dfy`) covers Python 2 slicing of byte strings (clamped bounds, negative indices) and `struct.pack('>H')` / `struct.pack('>I')`, with their inverses.
- `Frame` (`frame.dfy`) holds request assembly and the pure reading of replies.
  - Requests: the LED, version, GPIO, SPI and register requests, and the 1024-byte truncation.
  - Replies: the CRC comparison of `rx[2:-2]` with `rx[-2:]`, opcode gating, extraction of `rx[5:-2]`, and the version and GPIO fields.
  - Proved: layout, echo round trip, independence from the sync bytes, and detection of any single corrupted byte after the sync word.
- `Port` (`port.dfy`) is the serial port `ser` as a class.
  - State: a buffer of received bytes, a log of written bytes, and the device on the other end as a function from what is written to what comes back.
  - Methods: `InWaiting`, `Read` and `Write`.
- `Bridge` (`bridge.dfy`) holds the commands as methods that change the port, plus `byte_array_to_string` as a loop method with its unpacking round trip.

Bytes are `bv8` and the CRC register is `bv16`. The source's `& 0xFFFF` is therefore the bit-vector's own wrap-around. The `struct.error` that Python raises for a value outside 16 or 32 bits is ruled out by the argument types `bv16` and `bv32`.

Behaviour of the code worth noting:

- **LED request size.** The LED request is 8 bytes (`'>H4sH'`).
- **Short replies.** A reply too short for the bytes a command indexes raises `IndexError`. The model states it as a precondition on the device's reply.
- **CRC mismatch.** A CRC mismatch does not fail `spi_transfer`. The outcome is only printed. The model returns it as a flag beside the unchanged result.
- **Opcode mismatch.** A reply whose opcode is not the SPI one is returned whole by `spi_transfer`. `read_version` and `read_gpio` report "Unknown".
- **Length field.** The length field of a reply is never read. The SPI data is always `rx[5:-2]`.
- **Sync bytes.** `read_version`, `read_gpio` and `spi_transfer` never check the sync bytes of a reply. Only `set_led`'s exact-echo comparison covers them.

## Model

| member | source | states |
|---|---|---|
| Crc16.TableSize | arduino/spibridge/test_bridge.py:14-47 | the table has 256 entries, so every index `(seed >> 8) ^ byte` is in range |
| Crc16.TableIsRemainders | arduino/spibridge/test_bridge.py:14-47 | entry `i` of the host's table is the remainder of `i·x^8` divided MSB-first by the polynomial 0x1021, for all 256 entries |
| Crc16.RemainderSplit | arduino/spibridge/test_bridge.py:49-51 | one byte of division splits into the remainder of the top byte xor the low byte moved up: the identity the table lookup relies on |
| Crc16.Update | arduino/spibridge/test_bridge.py:49-51 | `crc16_floating` shifts the register up a byte and xors in the table entry at `(seed >> 8) ^ byte`, and that entry is the division remainder of the index moved to the top byte |
| Crc16.UpdateIsBitwise | arduino/spibridge/test_bridge.py:49-51 | `crc16_floating` (shift up a byte, xor the table entry at `(seed >> 8) ^ byte`, keep 16 bits) equals eight bitwise division steps after xor-ing the byte into the register's top byte, for every byte and register |
| Crc16.BitwiseUpdateInjectiveInByte | arduino/spibridge/test_bridge.py:49-51 | two different bytes fed into the same register give different registers |
| Crc16.BitwiseUpdateInjectiveInSeed | arduino/spibridge/test_bridge.py:49-51 | the same byte fed into two different registers gives different registers |
| Crc16.RemainderInjective | arduino/spibridge/test_bridge.py:49-51 | the eight division steps are injective on the register |
| Crc16.Crc16Buff | arduino/spibridge/test_bridge.py:53-57 | the loop returns the left-to-right fold of `crc16_floating` from 0xFFFF over the buffer, and 0xFFFF for an empty buffer |
| Crc16.Fold | arduino/spibridge/test_bridge.py:53-57 | feeding bytes through `crc16_floating` first to last, from any register, gives the bitwise CRC of those bytes from that register |
| Crc16.Checksum | arduino/spibridge/test_bridge.py:53-57 | the checksum of a buffer is its bitwise CRC from 0xFFFF, and 0xFFFF for an empty buffer |
| Crc16.FoldAppend | arduino/spibridge/test_bridge.py:53-57 | the CRC of `a + b` is `b` folded onto the register `a` leaves |
| Crc16.BitwiseFoldAppend | arduino/spibridge/test_bridge.py:53-57 | the same concatenation law for the bitwise reference |
| Crc16.BitwiseFoldSnoc | arduino/spibridge/test_bridge.py:53-57 | one more byte continues from the register the earlier bytes left |
| Crc16.BitwiseFoldInjectiveInSeed | arduino/spibridge/test_bridge.py:53-57 | folding the same input onto different registers never brings them together |
| Crc16.SingleByteErrorDetected | arduino/spibridge/test_bridge.py:53-57 | replacing one byte by a different one anywhere in a message changes the CRC, from any seed |
| Crc16.ChangedByteDetected | arduino/spibridge/test_bridge.py:53-57 | overwriting any byte of a message with a different value changes its checksum |
| Crc16.BitwiseCheckValue | arduino/spibridge/test_bridge.py:53-57 | the bitwise CRC of ASCII `123456789` from 0xFFFF is 0x29B1 |
| Crc16.CheckValue | arduino/spibridge/test_bridge.py:14-57 | with the host's table, the checksum of ASCII `123456789` is 0x29B1, the CRC-16/CCITT-FALSE check value |
| Bytes.Bound | arduino/spibridge/test_bridge.py:141-147 | a Python slice bound is clamped into `0..len`, and a negative bound counts from the end |
| Bytes.Slice | arduino/spibridge/test_bridge.py:141-147 | `s[lo:hi]` is the run of `s` from the clamped `lo` to the clamped `hi`, never out of range, empty when the bounds cross |
| Bytes.SliceInner | arduino/spibridge/test_bridge.py:141-147 | `s[lo:-drop]` is the part between the first `lo` and the last `drop` elements when `s` is long enough |
| Bytes.SliceInnerShort | arduino/spibridge/test_bridge.py:141-147 | `s[lo:-drop]` on a sequence too short for both margins is empty, not an error |
| Bytes.SliceTail | arduino/spibridge/test_bridge.py:142 | `s[-2:]` is the last two elements, or all of a shorter `s` |
| Bytes.SlicePrefix | arduino/spibridge/test_bridge.py:123-124 | `s[:n]` is the first `n` elements, or all of a shorter `s` |
| Bytes.PackU16 | arduino/spibridge/test_bridge.py:128 | `struct.pack('>H', x)` is two bytes whose big-endian value is `x` |
| Bytes.ValueU16Pack | arduino/spibridge/test_bridge.py:142 | every byte pair is the packing of its big-endian value |
| Bytes.PackU16Injective | arduino/spibridge/test_bridge.py:142 | different 16-bit values pack to different byte pairs |
| Bytes.PackU32 | arduino/spibridge/test_bridge.py:155 | `struct.pack('>I', x)` is four bytes whose big-endian value is `x` |
| Bytes.ValueU32Pack | arduino/spibridge/test_bridge.py:155 | every four bytes are the packing of their big-endian value |
| Frame.Body | arduino/spibridge/test_bridge.py:126 | the checksummed part `temp` is the opcode, the payload length big-endian, then the payload, 3 bytes longer than the payload |
| Frame.Assemble | arduino/spibridge/test_bridge.py:128 | a frame is 4 bytes longer than its body, starts 0xAB 0xCD, its `f[2:-2]` is the body and its `f[-2:]` holds the CRC big-endian |
| Frame.Request | arduino/spibridge/test_bridge.py:126-128 | every request is `0xAB 0xCD opcode len_hi len_lo payload crc_hi crc_lo`, 7 bytes longer than the payload, with the CRC of exactly `f[2:-2]` |
| Frame.LedPayload | arduino/spibridge/test_bridge.py:63-65 | the LED payload byte is 1 exactly when the LED is to be lit, otherwise 0 |
| Frame.LedRequestLayout | arduino/spibridge/test_bridge.py:60-71 | the LED request is 8 bytes, opcode 0x02, and its payload byte is 1 exactly when `state` is true |
| Frame.QueryRequestLayout | arduino/spibridge/test_bridge.py:86-105 | the version and GPIO requests are 7 bytes with opcodes 0x00 and 0x03 |
| Frame.Truncate | arduino/spibridge/test_bridge.py:123-124 | the SPI data sent is the first `min(len(data), 1024)` bytes of `data` |
| Frame.SpiLengthField | arduino/spibridge/test_bridge.py:123-128 | the SPI request's length field equals the truncated length, never above 1024, and the request carries exactly that prefix of the data |
| Frame.ChecksumMatches | arduino/spibridge/test_bridge.py:141-142 | on a reply of 4 bytes or more, the check passes exactly when the big-endian value of the last two bytes is the checksum of the bytes between them and the sync word |
| Frame.SpiResult | arduino/spibridge/test_bridge.py:146-150 | `spi_transfer` returns the reply unchanged exactly when `rx[2]` is not 0x01; otherwise `rx[5:-2]`, which is empty for a reply shorter than 7 bytes |
| Frame.RegisterOf | arduino/spibridge/test_bridge.py:160 | `read_register` returns `data[1]`, a byte of the SPI result |
| Frame.VersionOf | arduino/spibridge/test_bridge.py:97-100 | `read_version` reports "Unknown" exactly when `rx[2]` is not 0x00, otherwise bytes 5, 6, 7 and the name `rx[8:-2]` |
| Frame.GpioOf | arduino/spibridge/test_bridge.py:116-119 | `read_gpio` reports `(rx[5], rx[6])` exactly when `rx[2]` is 0x03, otherwise "Unknown" |
| Frame.AssembledChecksumMatches | arduino/spibridge/test_bridge.py:141-142 | a frame built with the CRC of its body passes the host's CRC check |
| Frame.SpiEchoRoundTrip | arduino/spibridge/test_bridge.py:126-147 | an echoed SPI request passes the CRC check and `rx[5:-2]` is exactly the truncated data |
| Frame.RegisterEcho | arduino/spibridge/test_bridge.py:158-160 | the SPI result of an echoed register request is two bytes, the second of them 0 |
| Frame.CheckedPartsAfterSync | arduino/spibridge/test_bridge.py:141-142 | for replies of four bytes or more, `rx[2:-2]` and `rx[-2:]` do not include the sync bytes |
| Frame.ChecksumIgnoresSync | arduino/spibridge/test_bridge.py:141-142 | the CRC check gives the same verdict for two replies that differ only in their sync bytes |
| Frame.SpiResultIgnoresSync | arduino/spibridge/test_bridge.py:146-147 | the SPI data of a reply with the SPI opcode does not depend on its sync bytes |
| Frame.QueriesIgnoreSync | arduino/spibridge/test_bridge.py:97-119 | what `read_version` and `read_gpio` report does not depend on the sync bytes |
| Frame.CorruptedCovered | arduino/spibridge/test_bridge.py:141-142 | changing a byte inside `f[2:-2]` changes that byte of the covered part and leaves `f[-2:]` alone |
| Frame.CorruptedTrailer | arduino/spibridge/test_bridge.py:141-142 | changing one of the last two bytes changes `f[-2:]` and leaves `f[2:-2]` alone |
| Frame.CoveredCorruptionDetected | arduino/spibridge/test_bridge.py:141-142 | a well-formed frame with one covered byte changed fails the CRC check |
| Frame.TrailerCorruptionDetected | arduino/spibridge/test_bridge.py:141-142 | a well-formed frame with one CRC byte changed fails the CRC check |
| Frame.CorruptionDetected | arduino/spibridge/test_bridge.py:141-142 | a well-formed frame with any single byte after the sync word changed fails the CRC check |
| Port.Take | arduino/spibridge/test_bridge.py:77 | `read(n)` hands over a prefix of the waiting bytes, `n` of them or all when fewer are waiting |
| Port.Drop | arduino/spibridge/test_bridge.py:77 | what `read(n)` leaves waiting is the rest after that prefix |
| Port.SerialPort.constructor | arduino/spibridge/test_bridge.py:163 | a port starts with nothing written and with the given bytes already waiting |
| Port.SerialPort.InWaiting | arduino/spibridge/test_bridge.py:72 | `inWaiting()` is the number of bytes waiting |
| Port.SerialPort.Read | arduino/spibridge/test_bridge.py:73 | `read(n)` returns the oldest `min(n, waiting)` bytes and removes them, writing nothing |
| Port.SerialPort.Write | arduino/spibridge/test_bridge.py:75 | `write(data)` appends `data` to the output log and the device's answer to the waiting bytes |
| Bridge.BuildRequest | arduino/spibridge/test_bridge.py:126-128 | packing the body, running the `crc16_buff` loop over it and framing it gives exactly the request frame |
| Bridge.Drain | arduino/spibridge/test_bridge.py:130-132 | after `if inWaiting() > 0: read(inWaiting())` nothing is waiting and nothing was written |
| Bridge.Transact | arduino/spibridge/test_bridge.py:130-137 | drain, write, read `n`: the bytes read are the first `n` of the device's answer to this request alone, the request is logged, and the rest of the answer stays waiting |
| Bridge.SetLed | arduino/spibridge/test_bridge.py:60-83 | writes the LED request and returns true exactly when the 8 bytes read back equal it; the rest of the device's answer stays waiting |
| Bridge.ReadVersion | arduino/spibridge/test_bridge.py:85-100 | writes the version request, reads 24 bytes and reports the version fields or "Unknown" by the opcode at byte 2; the rest of the answer stays waiting |
| Bridge.ReadGpio | arduino/spibridge/test_bridge.py:102-119 | writes the GPIO request, reads 9 bytes and reports `(rx[5], rx[6])` or "Unknown" by the opcode at byte 2; the rest of the answer stays waiting |
| Bridge.SpiTransfer | arduino/spibridge/test_bridge.py:122-150 | writes the request for the truncated data, reads as many bytes as written, returns `rx[5:-2]` or the whole reply by the opcode, reports the CRC verdict without letting it change the result, and leaves the rest of the answer waiting |
| Bridge.ReadRegister | arduino/spibridge/test_bridge.py:158-160 | sends `[register, 0]` by SPI transfer, returns byte 1 of the result and leaves the rest of the 9-byte-request's answer waiting |
| Bridge.PackWords | arduino/spibridge/test_bridge.py:152-156 | packing makes four bytes per word |
| Bridge.ByteArrayToString | arduino/spibridge/test_bridge.py:152-156 | the loop returns the first `length` words packed big-endian, none when `length <= 0` |
| Bridge.UnpackPackWords | arduino/spibridge/test_bridge.py:152-156 | the packed string reads back as exactly the words packed |
| Bridge.EchoedSetLed | arduino/spibridge/test_bridge.py:60-83 | against a device that echoes the LED request, `set_led` returns true |
| Bridge.LedSyncChecked | arduino/spibridge/test_bridge.py:77-78 | the first 8 bytes of an LED-request echo with a sync byte changed are not the request |
| Bridge.CorruptSyncSetLed | arduino/spibridge/test_bridge.py:72-83 | against a device that echoes the LED request with one sync byte changed, `set_led` returns false |
| Bridge.EchoedSpiTransfer | arduino/spibridge/test_bridge.py:122-150 | against a device that echoes the SPI request, `spi_transfer` passes the CRC check and returns exactly the truncated data |
| Bridge.EchoedReadRegister | arduino/spibridge/test_bridge.py:158-160 | against a device that echoes the request, `read_register` returns 0, the filler byte of its own request |

## Left out

- Port setup and the script body (`arduino/spibridge/test_bridge.py:163-181`) are left out: opening the device at 57600 baud with a 2-second timeout, the boot and settle `time.sleep` calls, and `close`. The port's timeout appears only as `read(n)` returning fewer bytes when fewer are waiting.
- Console output is left out: every `print` and hex dump. The CRC verdict of `spi_transfer`, which the code only prints, is returned as a flag.
- Port.SerialPort: the device's answer is a fixed function of the bytes just written, so repeated identical requests always get identical answers. A device whose answers change over time (register contents, GPIO levels, a version reply that differs between calls) is not represented.
- Timing and arrival order are left out. The device's whole answer to a write is waiting as soon as the write returns. A reply that arrives late, or in pieces across reads, is not modelled.
- The decimal formatting in `read_version` (`str(ord(...))` joined with dots) is left out. The model reports the three version bytes and the name bytes `rx[8:-2]`.
- The tuple-or-string result of `read_gpio` and the string result of `read_version` become the datatypes `Gpio` and `Version`.
- Bridge.ByteArrayToString: the words are `bv32`, so `struct.pack('>I')`'s error for values outside `0..2^32-1` is excluded by the type rather than by a precondition. A `length` beyond the end of `array` raises `IndexError` at `array[k]` (line 155); this is stated as the precondition `length <= |words|` rather than modelled as an error result.
- Bridge.ReadRegister: the register number is a `bv8`, so the `ValueError` that `bytearray([register_id, 0])` raises for a number outside `0..255` (line 159) is excluded by the type.
- Bridge.SetLed: the LED state is a `bool`, so `set_led`'s default argument `state=True` and Python's truthiness test of other values (lines 60, 64) are not modelled.
- Bridge.ReadVersion, Bridge.ReadGpio, Bridge.SpiTransfer, Bridge.ReadRegister: a reply too short for the bytes indexed raises `IndexError` in the code. This is stated as a precondition rather than modelled as an error result.
- SX127x/board_config_piloragateway.py, SX127x/board_config_spibridge.py and hab_utils.py are not part of this model. They are hardware glue, a wrapper over a class whose source is absent, and a float telemetry decoder.
