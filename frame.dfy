/**
 * Request frames of the SPI-bridge serial protocol and the host's reading of
 * the replies (arduino/spibridge/test_bridge.py).
 *
 * A frame is the sync word 0xABCD, an opcode byte, a big-endian 16-bit payload
 * length, the payload, and a big-endian CRC-16 of everything between the sync
 * word and the CRC itself. Of the replies, only `set_led`'s exact-echo
 * comparison checks the sync bytes; the version, GPIO and SPI readings never
 * check them, and a reply whose CRC does not match is still used.
 */
module Frame {
  import opened Bytes
  import opened Crc16

  /** The two bytes that open every frame. */
  const Sync: bv16 := 0xABCD

  const OpVersion: bv8 := 0x00
  const OpSpiTransfer: bv8 := 0x01
  const OpLed: bv8 := 0x02
  const OpReadGpio: bv8 := 0x03

  /** The longest SPI payload the host sends; longer data is cut to this length. */
  const MaxSpiPayload: nat := 1024

  // ----- Building requests -----

  /**
   * The checksummed part of a request (`temp` in the host code): the opcode,
   * the payload length big-endian, then the payload.
   */
  function Body(opcode: bv8, payload: seq<bv8>): (b: seq<bv8>)
    requires |payload| < 0x1_0000
    ensures |b| == |payload| + 3 && b[0] == opcode
    ensures ValueU16(b[1..3]) == |payload| as bv16
    ensures b[3..] == payload
  {
    var b := [opcode] + PackU16(|payload| as bv16) + payload;
    assert b[1..3] == PackU16(|payload| as bv16);
    b
  }

  /** The part of a frame the CRC covers, `f[2:-2]`. */
  function Covered(f: seq<bv8>): seq<bv8>
  {
    Slice(f, 2, -2)
  }

  /** The last two bytes of a frame, `f[-2:]`, where the CRC sits. */
  function Trailer(f: seq<bv8>): seq<bv8>
  {
    Slice(f, -2, |f|)
  }

  /**
   * A frame around `body`: 4 bytes longer, opening 0xAB 0xCD, with `f[2:-2]`
   * exactly the body and `f[-2:]` the big-endian `crc`.
   */
  function Assemble(body: seq<bv8>, crc: bv16): (f: seq<bv8>)
    ensures |f| == |body| + 4
    ensures f[0] == 0xAB && f[1] == 0xCD
    ensures Covered(f) == body
    ensures |Trailer(f)| == 2 && ValueU16(Trailer(f)) == crc
  {
    var f := PackU16(Sync) + body + PackU16(crc);
    SliceInner(f, 2, 2);
    SliceTail(f, 2);
    assert f[2..|f| - 2] == body;
    assert f[|f| - 2..] == PackU16(crc);
    f
  }

  /**
   * The request frame carrying `payload` under `opcode`:
   * `0xAB, 0xCD, opcode, len_hi, len_lo, payload..., crc_hi, crc_lo`, seven
   * bytes longer than its payload, its CRC that of exactly `f[2:-2]`.
   */
  function Request(opcode: bv8, payload: seq<bv8>): (f: seq<bv8>)
    requires |payload| < 0x1_0000
    ensures |f| == |payload| + 7
    ensures f[0] == 0xAB && f[1] == 0xCD && f[2] == opcode
    ensures ValueU16(f[3..5]) == |payload| as bv16
    ensures f[5..|f| - 2] == payload
    ensures ValueU16(Trailer(f)) == Checksum(Covered(f))
  {
    var body := Body(opcode, payload);
    var f := Assemble(body, Checksum(body));
    assert f[3..5] == body[1..3];
    assert f[5..|f| - 2] == body[3..];
    f
  }

  /** The payload of `set_led`: 1 to switch the LED on, 0 to switch it off. */
  function LedPayload(on: bool): (p: bv8)
    ensures p == 1 <==> on
    ensures !on ==> p == 0
  {
    if on then 0x01 else 0x00
  }

  /** The `set_led` request. */
  function LedRequest(on: bool): seq<bv8>
  {
    Request(OpLed, [LedPayload(on)])
  }

  /** The `read_version` request: no payload. */
  function VersionRequest(): seq<bv8>
  {
    Request(OpVersion, [])
  }

  /** The `read_gpio` request: no payload. */
  function GpioRequest(): seq<bv8>
  {
    Request(OpReadGpio, [])
  }

  /** `spi_transfer` keeps at most the first 1024 bytes of its data. */
  function Truncate(data: seq<bv8>): (p: seq<bv8>)
    ensures |p| == (if |data| > MaxSpiPayload then MaxSpiPayload else |data|)
    ensures p == data[..|p|]
  {
    if |data| > MaxSpiPayload then Slice(data, 0, MaxSpiPayload) else data
  }

  /** The `spi_transfer` request for `data`. */
  function SpiRequest(data: seq<bv8>): seq<bv8>
  {
    Request(OpSpiTransfer, Truncate(data))
  }

  /** The request `read_register` sends: an SPI transfer of the register number and a zero. */
  function RegisterRequest(register: bv8): seq<bv8>
  {
    SpiRequest([register, 0x00])
  }

  /** The LED request is 8 bytes and its one payload byte is 1 exactly when the LED is to be lit. */
  lemma LedRequestLayout(on: bool)
    ensures |LedRequest(on)| == 8 && LedRequest(on)[2] == OpLed
    ensures LedRequest(on)[5] == 1 <==> on
  {
  }

  /** The version and GPIO requests are 7 bytes, differing only in their opcode and CRC. */
  lemma QueryRequestLayout()
    ensures |VersionRequest()| == 7 && VersionRequest()[2] == OpVersion
    ensures |GpioRequest()| == 7 && GpioRequest()[2] == OpReadGpio
  {
  }

  /** The SPI request never announces more than 1024 bytes and carries exactly what it announces. */
  lemma SpiLengthField(data: seq<bv8>)
    ensures |SpiRequest(data)| == |Truncate(data)| + 7
    ensures |Truncate(data)| <= MaxSpiPayload && ValueU16(SpiRequest(data)[3..5]) == |Truncate(data)| as bv16
    ensures SpiRequest(data)[5..|SpiRequest(data)| - 2] == data[..|Truncate(data)|]
  {
  }

  // ----- Reading replies -----

  /**
   * The check `spi_transfer` makes: the CRC of `rx[2:-2]`, packed, equals
   * `rx[-2:]`. On a reply of four bytes or more that is: the big-endian value
   * of the last two bytes is the checksum of everything between them and the
   * sync word.
   */
  function ChecksumMatches(rx: seq<bv8>): (ok: bool)
    ensures |rx| >= 4 ==> (ok <==> ValueU16(rx[|rx| - 2..]) == Checksum(rx[2..|rx| - 2]))
  {
    var ok := PackU16(Checksum(Covered(rx))) == Trailer(rx);
    if |rx| < 4 then ok
    else
      SliceInner(rx, 2, 2);
      SliceTail(rx, 2);
      ValueU16Pack(rx[|rx| - 2..]);
      ok
  }

  /**
   * What `spi_transfer` returns for the reply `rx`: the bytes between the
   * header and the CRC when the reply carries the SPI opcode, the whole reply
   * otherwise. Reading `rx[2]` needs three bytes.
   */
  function SpiResult(rx: seq<bv8>): (r: seq<bv8>)
    requires |rx| >= 3
    ensures r == rx <==> rx[2] != OpSpiTransfer
    ensures rx[2] == OpSpiTransfer && |rx| >= 7 ==> r == rx[5..|rx| - 2]
    ensures rx[2] == OpSpiTransfer && |rx| < 7 ==> r == []
  {
    if rx[2] == OpSpiTransfer then Slice(rx, 5, -2) else rx
  }

  /** `read_register` takes the second byte of the SPI result. */
  function RegisterOf(data: seq<bv8>): (b: bv8)
    requires |data| >= 2
    ensures b in data
  {
    data[1]
  }

  /** The firmware version `read_version` reports; the decimal rendering is left abstract. */
  datatype Version = Version(major: bv8, minor: bv8, patch: bv8, name: seq<bv8>) | UnknownVersion

  /** The GPIO levels `read_gpio` reports. */
  datatype Gpio = Pins(dio0: bv8, dio5: bv8) | UnknownGpio

  /** A reply `read_version` can read without an index error. */
  predicate VersionReadable(rx: seq<bv8>)
  {
    |rx| >= 3 && (rx[2] == OpVersion ==> |rx| >= 8)
  }

  /** A reply `read_gpio` can read without an index error. */
  predicate GpioReadable(rx: seq<bv8>)
  {
    |rx| >= 3 && (rx[2] == OpReadGpio ==> |rx| >= 7)
  }

  /** `read_version`: bytes 5, 6, 7 and `rx[8:-2]` when the reply carries the version opcode. */
  function VersionOf(rx: seq<bv8>): (v: Version)
    requires VersionReadable(rx)
    ensures v == UnknownVersion <==> rx[2] != OpVersion
    ensures v.Version? ==> v.major == rx[5] && v.minor == rx[6] && v.patch == rx[7]
    ensures v.Version? ==> v.name == Slice(rx, 8, -2)
  {
    if rx[2] == OpVersion then Version(rx[5], rx[6], rx[7], Slice(rx, 8, -2)) else UnknownVersion
  }

  /** `read_gpio`: bytes 5 and 6 when the reply carries the GPIO opcode. */
  function GpioOf(rx: seq<bv8>): (g: Gpio)
    requires GpioReadable(rx)
    ensures g == UnknownGpio <==> rx[2] != OpReadGpio
    ensures g.Pins? ==> g.dio0 == rx[5] && g.dio5 == rx[6]
  {
    if rx[2] == OpReadGpio then Pins(rx[5], rx[6]) else UnknownGpio
  }

  /** A frame's own CRC always matches. */
  lemma AssembledChecksumMatches(body: seq<bv8>)
    ensures ChecksumMatches(Assemble(body, Checksum(body)))
  {
    var f := Assemble(body, Checksum(body));
    ValueU16Pack(Trailer(f));
  }

  /**
   * An echoed SPI request passes the CRC check and yields exactly the
   * (truncated) data that was sent.
   */
  lemma SpiEchoRoundTrip(data: seq<bv8>)
    ensures ChecksumMatches(SpiRequest(data))
    ensures SpiResult(SpiRequest(data)) == Truncate(data)
  {
    var p := Truncate(data);
    var f := SpiRequest(data);
    AssembledChecksumMatches(Body(OpSpiTransfer, p));
    SliceInner(f, 5, 2);
  }

  /** Reading the register from an echoed request gives back the zero byte that followed the register number. */
  lemma RegisterEcho(register: bv8)
    ensures |SpiResult(RegisterRequest(register))| == 2
    ensures RegisterOf(SpiResult(RegisterRequest(register))) == 0x00
  {
    SpiEchoRoundTrip([register, 0x00]);
  }

  /** Two replies that agree everywhere except possibly in the sync bytes. */
  predicate SameAfterSync(rx: seq<bv8>, ry: seq<bv8>)
  {
    |rx| == |ry| && forall i :: 2 <= i < |rx| ==> rx[i] == ry[i]
  }

  /** Past its first three bytes, a reply's CRC-covered part and CRC bytes lie after the sync word. */
  lemma CheckedPartsAfterSync(rx: seq<bv8>, ry: seq<bv8>)
    requires SameAfterSync(rx, ry) && |rx| >= 4
    ensures Covered(rx) == Covered(ry) && Trailer(rx) == Trailer(ry)
  {
    SliceInner(rx, 2, 2);
    SliceInner(ry, 2, 2);
    assert rx[2..|rx| - 2] == ry[2..|ry| - 2];
    SliceTail(rx, 2);
    SliceTail(ry, 2);
    assert rx[|rx| - 2..] == ry[|ry| - 2..];
  }

  /**
   * The CRC check never looks at the sync bytes of a reply of four bytes or
   * more (a shorter reply has sync bytes inside its `rx[-2:]`).
   */
  lemma ChecksumIgnoresSync(rx: seq<bv8>, ry: seq<bv8>)
    requires SameAfterSync(rx, ry) && |rx| >= 4
    ensures ChecksumMatches(rx) <==> ChecksumMatches(ry)
  {
    CheckedPartsAfterSync(rx, ry);
  }

  /** An SPI reply's data never depends on its sync bytes. */
  lemma SpiResultIgnoresSync(rx: seq<bv8>, ry: seq<bv8>)
    requires SameAfterSync(rx, ry) && |rx| >= 3 && rx[2] == OpSpiTransfer
    ensures SpiResult(rx) == SpiResult(ry)
  {
    if |rx| >= 7 {
      SliceInner(rx, 5, 2);
      SliceInner(ry, 5, 2);
      assert rx[5..|rx| - 2] == ry[5..|ry| - 2];
    } else {
      SliceInnerShort(rx, 5, 2);
      SliceInnerShort(ry, 5, 2);
    }
  }

  /** The version and GPIO readings never depend on the sync bytes. */
  lemma QueriesIgnoreSync(rx: seq<bv8>, ry: seq<bv8>)
    requires SameAfterSync(rx, ry)
    ensures VersionReadable(rx) ==> VersionReadable(ry) && VersionOf(rx) == VersionOf(ry)
    ensures GpioReadable(rx) ==> GpioReadable(ry) && GpioOf(rx) == GpioOf(ry)
  {
    if |rx| >= 10 {
      SliceInner(rx, 8, 2);
      SliceInner(ry, 8, 2);
      assert rx[8..|rx| - 2] == ry[8..|ry| - 2];
    } else {
      SliceInnerShort(rx, 8, 2);
      SliceInnerShort(ry, 8, 2);
    }
  }

  /** Changing a byte of a frame inside `f[2:-2]` changes that byte of the covered part and nothing else. */
  lemma CorruptedCovered(f: seq<bv8>, k: nat, y: bv8)
    requires 2 <= k < |f| - 2
    ensures Covered(f[k := y]) == Covered(f)[k - 2 := y]
    ensures Trailer(f[k := y]) == Trailer(f)
  {
    var g := f[k := y];
    SliceInner(f, 2, 2);
    SliceInner(g, 2, 2);
    assert g[2..|g| - 2] == f[2..|f| - 2][k - 2 := y];
    SliceTail(f, 2);
    SliceTail(g, 2);
    assert g[|g| - 2..] == f[|f| - 2..];
  }

  /** Changing one of the last two bytes of a frame changes its trailer and not the covered part. */
  lemma CorruptedTrailer(f: seq<bv8>, k: nat, y: bv8)
    requires 4 <= |f| && |f| - 2 <= k < |f| && y != f[k]
    ensures Covered(f[k := y]) == Covered(f)
    ensures Trailer(f[k := y]) != Trailer(f)
  {
    var g := f[k := y];
    SliceInner(f, 2, 2);
    SliceInner(g, 2, 2);
    assert g[2..|g| - 2] == f[2..|f| - 2];
    SliceTail(f, 2);
    SliceTail(g, 2);
    assert g[|g| - 2..][k - (|g| - 2)] != f[|f| - 2..][k - (|f| - 2)];
  }

  /** Changing a covered byte of a well-formed frame makes it fail the CRC check. */
  lemma CoveredCorruptionDetected(body: seq<bv8>, k: nat, y: bv8)
    requires 2 <= k < |body| + 2
    requires y != body[k - 2]
    ensures !ChecksumMatches(Assemble(body, Checksum(body))[k := y])
  {
    var f := Assemble(body, Checksum(body));
    var g := f[k := y];
    AssembledChecksumMatches(body);
    CorruptedCovered(f, k, y);
    ChangedByteDetected(body, k - 2, y);
    PackU16Injective(Checksum(Covered(g)), Checksum(body));
  }

  /** Changing a CRC byte of a well-formed frame makes it fail the CRC check. */
  lemma TrailerCorruptionDetected(body: seq<bv8>, k: nat, y: bv8)
    requires |body| + 2 <= k < |body| + 4
    requires y != Assemble(body, Checksum(body))[k]
    ensures !ChecksumMatches(Assemble(body, Checksum(body))[k := y])
  {
    var f := Assemble(body, Checksum(body));
    AssembledChecksumMatches(body);
    CorruptedTrailer(f, k, y);
  }

  /**
   * A well-formed frame with any single byte after the sync word changed
   * fails the CRC check: the change is either inside the covered part, whose
   * checksum then changes, or in the CRC bytes themselves.
   */
  lemma CorruptionDetected(body: seq<bv8>, k: nat, y: bv8)
    requires var f := Assemble(body, Checksum(body)); 2 <= k < |f| && y != f[k]
    ensures !ChecksumMatches(Assemble(body, Checksum(body))[k := y])
  {
    if k < |body| + 2 {
      assert Assemble(body, Checksum(body))[k] == body[k - 2];
      CoveredCorruptionDetected(body, k, y);
    } else {
      TrailerCorruptionDetected(body, k, y);
    }
  }
}
