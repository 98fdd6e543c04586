/**
 * The serial port the host talks through (`ser` in
 * arduino/spibridge/test_bridge.py), as a fake port: an input buffer of
 * bytes received and not yet read, a log of every byte written, and the
 * device on the other end, which answers each write with some bytes.
 */
module Port {

  /** The first `n` elements of `s`, or all of `s` when it is shorter. */
  function Take<T>(s: seq<T>, n: nat): (r: seq<T>)
    ensures |r| <= n && r <= s
    ensures |r| < n ==> r == s
  {
    if n < |s| then s[..n] else s
  }

  /** The part of `s` after its first `n` elements. */
  function Drop<T>(s: seq<T>, n: nat): (r: seq<T>)
    ensures Take(s, n) + r == s
  {
    if n < |s| then s[n..] else []
  }

  class SerialPort {
    /** Bytes received and not yet read. */
    var pending: seq<bv8>
    /** Every byte written to the port, oldest first. */
    var written: seq<bv8>
    /** What the device sends back on receiving a write (possibly nothing, possibly garbled). */
    const device: seq<bv8> -> seq<bv8>

    /** A port whose device answers with `device` and on which `pending` has already arrived. */
    constructor(device: seq<bv8> -> seq<bv8>, pending: seq<bv8>)
      ensures this.device == device && this.pending == pending && written == []
    {
      this.device := device;
      this.pending := pending;
      written := [];
    }

    /** `inWaiting()`: how many received bytes can be read now. */
    method InWaiting() returns (n: nat)
      ensures n == |pending|
    {
      n := |pending|;
    }

    /** `read(n)`: up to `n` received bytes, oldest first; fewer when the timeout ends the read early. */
    method Read(n: nat) returns (data: seq<bv8>)
      modifies this
      ensures data == Take(old(pending), n)
      ensures pending == Drop(old(pending), n)
      ensures written == old(written)
    {
      data := Take(pending, n);
      pending := Drop(pending, n);
    }

    /** `write(data)`: send `data`; the device's answer joins the received bytes. */
    method Write(data: seq<bv8>)
      modifies this
      ensures written == old(written) + data
      ensures pending == old(pending) + device(data)
    {
      written := written + data;
      pending := pending + device(data);
    }
  }
}
