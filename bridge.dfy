/**
 * The host's commands to the SPI bridge (arduino/spibridge/test_bridge.py),
 * run against the fake serial port: each builds its request, discards any
 * input already waiting, writes the request and reads a fixed number of
 * reply bytes (as many as it wrote, for the LED and SPI commands).
 */
module Bridge {
  import opened Bytes
  import opened Crc16
  import opened Frame
  import opened Port

  /** The reply a command reads when it writes `tx` and then reads `n` bytes. */
  function Reply(device: seq<bv8> -> seq<bv8>, tx: seq<bv8>, n: nat): seq<bv8>
  {
    Take(device(tx), n)
  }

  /** Build a request the way the host does: pack the body, checksum it with `crc16_buff`, frame it. */
  method BuildRequest(opcode: bv8, payload: seq<bv8>) returns (tx: seq<bv8>)
    requires |payload| < 0x1_0000
    ensures tx == Request(opcode, payload)
  {
    var temp := Body(opcode, payload);
    var crc := Crc16Buff(temp);
    tx := Assemble(temp, crc);
  }

  /** `if ser.inWaiting() > 0: ser.read(ser.inWaiting())`: throw away whatever input is waiting. */
  method Drain(port: SerialPort)
    modifies port
    ensures port.pending == []
    ensures port.written == old(port.written)
  {
    var waiting := port.InWaiting();
    if waiting > 0 {
      var n := port.InWaiting();
      var stale := port.Read(n);
    }
  }

  /** Drain, write `tx`, read `n` bytes: the reply comes only from what the device sent back to `tx`. */
  method Transact(port: SerialPort, tx: seq<bv8>, n: nat) returns (rx: seq<bv8>)
    modifies port
    ensures rx == Reply(port.device, tx, n)
    ensures port.written == old(port.written) + tx
    ensures port.pending == Drop(port.device(tx), n)
  {
    Drain(port);
    port.Write(tx);
    assert port.pending == port.device(tx);
    rx := port.Read(n);
  }

  /** `set_led`: true exactly when the device echoes the request byte for byte. */
  method SetLed(port: SerialPort, on: bool) returns (ok: bool)
    modifies port
    ensures ok <==> Reply(port.device, LedRequest(on), 8) == LedRequest(on)
    ensures port.written == old(port.written) + LedRequest(on)
    ensures port.pending == Drop(port.device(LedRequest(on)), 8)
  {
    var tx := BuildRequest(OpLed, [LedPayload(on)]);
    LedRequestLayout(on);
    var rx := Transact(port, tx, |tx|);
    ok := rx == tx;
  }

  /** `read_version`: reads 24 bytes; a reply shorter than the fields it reads is an index error. */
  method ReadVersion(port: SerialPort) returns (v: Version)
    requires VersionReadable(Reply(port.device, VersionRequest(), 24))
    modifies port
    ensures v == VersionOf(Reply(port.device, VersionRequest(), 24))
    ensures port.written == old(port.written) + VersionRequest()
    ensures port.pending == Drop(port.device(VersionRequest()), 24)
  {
    var tx := BuildRequest(OpVersion, []);
    var rx := Transact(port, tx, 24);
    if rx[2] == OpVersion {
      v := Version(rx[5], rx[6], rx[7], Slice(rx, 8, -2));
    } else {
      v := UnknownVersion;
    }
  }

  /** `read_gpio`: reads 9 bytes and reports DIO0 and DIO5 when the reply has the GPIO opcode. */
  method ReadGpio(port: SerialPort) returns (g: Gpio)
    requires GpioReadable(Reply(port.device, GpioRequest(), 9))
    modifies port
    ensures g == GpioOf(Reply(port.device, GpioRequest(), 9))
    ensures port.written == old(port.written) + GpioRequest()
    ensures port.pending == Drop(port.device(GpioRequest()), 9)
  {
    var tx := BuildRequest(OpReadGpio, []);
    var rx := Transact(port, tx, 9);
    if rx[2] == OpReadGpio {
      g := Pins(rx[5], rx[6]);
    } else {
      g := UnknownGpio;
    }
  }

  /**
   * `spi_transfer`: sends at most 1024 bytes of `data`, reads as many bytes as
   * it wrote, and returns the reply's data whatever the CRC check says;
   * `crcOk` is the outcome the host only prints.
   */
  method SpiTransfer(port: SerialPort, data: seq<bv8>) returns (received: seq<bv8>, crcOk: bool)
    requires |Reply(port.device, SpiRequest(data), |SpiRequest(data)|)| >= 3
    modifies port
    ensures var rx := Reply(port.device, SpiRequest(data), |SpiRequest(data)|);
      received == SpiResult(rx) && (crcOk <==> ChecksumMatches(rx))
    ensures port.written == old(port.written) + SpiRequest(data)
    ensures port.pending == Drop(port.device(SpiRequest(data)), |SpiRequest(data)|)
  {
    var sent := data;
    if |sent| > MaxSpiPayload {
      sent := Slice(sent, 0, MaxSpiPayload);
    }
    var tx := BuildRequest(OpSpiTransfer, sent);
    var rx := Transact(port, tx, |tx|);
    var computed := Crc16Buff(Slice(rx, 2, -2));
    crcOk := PackU16(computed) == Slice(rx, -2, |rx|);
    if rx[2] == OpSpiTransfer {
      received := Slice(rx, 5, -2);
    } else {
      received := rx;
    }
  }

  /** `read_register`: an SPI transfer of `[register, 0]`, then the second byte of what it returns. */
  method ReadRegister(port: SerialPort, register: bv8) returns (value: bv8)
    requires |Reply(port.device, RegisterRequest(register), 9)| >= 3
    requires |SpiResult(Reply(port.device, RegisterRequest(register), 9))| >= 2
    modifies port
    ensures value == RegisterOf(SpiResult(Reply(port.device, RegisterRequest(register), 9)))
    ensures port.written == old(port.written) + RegisterRequest(register)
    ensures port.pending == Drop(port.device(RegisterRequest(register)), 9)
  {
    SpiLengthField([register, 0x00]);
    var data, crcOk := SpiTransfer(port, [register, 0x00]);
    value := data[1];
  }

  // ----- byte_array_to_string -----

  /** The words of `w`, each packed big-endian into four bytes, in order. */
  function PackWords(w: seq<bv32>): (s: seq<bv8>)
    ensures |s| == 4 * |w|
  {
    if |w| == 0 then [] else PackWords(w[..|w| - 1]) + PackU32(w[|w| - 1])
  }

  /** Read a byte string back as consecutive big-endian 32-bit words. */
  function UnpackWords(s: seq<bv8>): seq<bv32>
    requires |s| % 4 == 0
  {
    if |s| == 0 then [] else UnpackWords(s[..|s| - 4]) + [ValueU32(s[|s| - 4..])]
  }

  /**
   * `byte_array_to_string(array, length)`: the first `length` words packed,
   * none when `length <= 0`; indexing past the end of `array` is an error.
   */
  method ByteArrayToString(words: seq<bv32>, length: int) returns (s: seq<bv8>)
    requires length <= |words|
    ensures s == PackWords(words[..if length < 0 then 0 else length])
  {
    var n := if length < 0 then 0 else length;
    s := [];
    for k := 0 to n
      invariant s == PackWords(words[..k])
    {
      assert words[..k + 1][..k] == words[..k];
      s := s + PackU32(words[k]);
    }
  }

  /** The packed string reads back as the words that were packed. */
  lemma {:induction false} UnpackPackWords(w: seq<bv32>)
    ensures |PackWords(w)| % 4 == 0 && UnpackWords(PackWords(w)) == w
  {
    if |w| > 0 {
      var init, last := w[..|w| - 1], w[|w| - 1];
      var s := PackWords(w);
      UnpackPackWords(init);
      assert s[..|s| - 4] == PackWords(init);
      assert s[|s| - 4..] == PackU32(last);
      assert UnpackWords(s) == UnpackWords(PackWords(init)) + [ValueU32(PackU32(last))];
      assert w == init + [last];
    }
  }

  // ----- End to end -----

  /** Against a device that echoes the LED request, `set_led` succeeds. */
  method EchoedSetLed(port: SerialPort, on: bool) returns (ok: bool)
    requires port.device(LedRequest(on)) == LedRequest(on)
    modifies port
    ensures ok
  {
    LedRequestLayout(on);
    ok := SetLed(port, on);
  }

  /**
   * Unlike the other commands, `set_led` does see the sync bytes: an echo with
   * either of them changed is not the request and so makes it fail.
   */
  lemma LedSyncChecked(on: bool, k: nat, y: bv8)
    requires k < 2 && y != LedRequest(on)[k]
    ensures Take(LedRequest(on)[k := y], 8) != LedRequest(on)
  {
    LedRequestLayout(on);
    assert Take(LedRequest(on)[k := y], 8)[k] == y;
  }

  /** Against a device that echoes the LED request with one sync byte changed, `set_led` fails. */
  method CorruptSyncSetLed(port: SerialPort, on: bool, k: nat, y: bv8) returns (ok: bool)
    requires k < 2 && y != LedRequest(on)[k]
    requires port.device(LedRequest(on)) == LedRequest(on)[k := y]
    modifies port
    ensures !ok
  {
    LedSyncChecked(on, k, y);
    ok := SetLed(port, on);
  }

  /**
   * Against a device that echoes the SPI request, `spi_transfer` reads a reply
   * that passes the CRC check and returns exactly the (truncated) data sent.
   */
  method EchoedSpiTransfer(port: SerialPort, data: seq<bv8>) returns (received: seq<bv8>, crcOk: bool)
    requires port.device(SpiRequest(data)) == SpiRequest(data)
    modifies port
    ensures crcOk && received == Truncate(data)
  {
    SpiEchoRoundTrip(data);
    received, crcOk := SpiTransfer(port, data);
  }

  /**
   * Against a device that echoes the request, `read_register` returns 0, the
   * filler byte of its own request, not the register's contents.
   */
  method EchoedReadRegister(port: SerialPort, register: bv8) returns (value: bv8)
    requires port.device(RegisterRequest(register)) == RegisterRequest(register)
    modifies port
    ensures value == 0x00
  {
    SpiLengthField([register, 0x00]);
    RegisterEcho(register);
    value := ReadRegister(port, register);
  }
}
