/**
 * The byte-string operations the host code leans on: Python 2 slicing of a
 * `str` (clamped bounds, negative indices counting from the end) and the
 * big-endian packings `struct.pack('>H', n)` and `struct.pack('>I', n)`.
 */
module Bytes {

  /** Python's treatment of one slice bound `i` on a sequence of length `n`. */
  function Bound(i: int, n: nat): (r: nat)
    ensures r <= n
    ensures 0 <= i <= n ==> r == i
    ensures i < 0 <= n + i ==> r == n + i
  {
    if i < 0 then (if i + n < 0 then 0 else i + n) else (if i < n then i else n)
  }

  /**
   * `s[lo:hi]` as Python evaluates it: never out of range, the run of `s`
   * from the clamped `lo` up to the clamped `hi`, empty when the bounds cross.
   */
  function Slice<T>(s: seq<T>, lo: int, hi: int): (r: seq<T>)
    ensures Bound(lo, |s|) + |r| <= |s|
    ensures r == s[Bound(lo, |s|)..Bound(lo, |s|) + |r|]
    ensures |r| == if Bound(lo, |s|) < Bound(hi, |s|) then Bound(hi, |s|) - Bound(lo, |s|) else 0
  {
    var a, b := Bound(lo, |s|), Bound(hi, |s|);
    if a < b then s[a..b] else []
  }

  /** `s[lo:-drop]` keeps what lies between the first `lo` and the last `drop` elements. */
  lemma SliceInner<T>(s: seq<T>, lo: nat, drop: int)
    requires 0 < drop && lo + drop <= |s|
    ensures Slice(s, lo, -drop) == s[lo..|s| - drop]
    ensures |Slice(s, lo, -drop)| == |s| - lo - drop
  {
  }

  /** On a sequence too short for both margins, `s[lo:-drop]` is empty rather than an error. */
  lemma SliceInnerShort<T>(s: seq<T>, lo: nat, drop: int)
    requires 0 < drop && |s| < lo + drop
    ensures Slice(s, lo, -drop) == []
  {
  }

  /** `s[-n:]` is the last `n` elements, or all of `s` when it is shorter. */
  lemma SliceTail<T>(s: seq<T>, n: int)
    requires 0 < n
    ensures |s| >= n ==> Slice(s, -n, |s|) == s[|s| - n..]
    ensures |s| < n ==> Slice(s, -n, |s|) == s
  {
  }

  /** `s[:n]` is the first `n` elements, or all of `s` when it is shorter. */
  lemma SlicePrefix<T>(s: seq<T>, n: nat)
    ensures |s| >= n ==> Slice(s, 0, n) == s[..n]
    ensures |s| < n ==> Slice(s, 0, n) == s
  {
    if |s| < n {
      assert s[0..|s|] == s;
    }
  }

  /** The value of a big-endian 16-bit field. */
  function ValueU16(s: seq<bv8>): bv16
    requires |s| == 2
  {
    ((s[0] as bv16) << 8) | (s[1] as bv16)
  }

  /**
   * `struct.pack('>H', x)`: high byte first, reading back as `x`. Python
   * raises `struct.error` unless the value fits in 16 bits; here that is the
   * argument's type.
   */
  function PackU16(x: bv16): (r: seq<bv8>)
    ensures |r| == 2 && ValueU16(r) == x
  {
    [(x >> 8) as bv8, (x & 0xFF) as bv8]
  }

  /** Every pair of bytes is the packing of the value it encodes. */
  lemma ValueU16Pack(s: seq<bv8>)
    requires |s| == 2
    ensures PackU16(ValueU16(s)) == s
  {
  }

  /** Distinct 16-bit values pack to distinct byte pairs. */
  lemma PackU16Injective(x: bv16, y: bv16)
    requires x != y
    ensures PackU16(x) != PackU16(y)
  {
  }

  /** The value of a big-endian 32-bit field. */
  function ValueU32(s: seq<bv8>): bv32
    requires |s| == 4
  {
    ((s[0] as bv32) << 24) | ((s[1] as bv32) << 16) | ((s[2] as bv32) << 8) | (s[3] as bv32)
  }

  /**
   * `struct.pack('>I', x)`: most significant byte first, reading back as
   * `x`. Python raises `struct.error` unless `0 <= x < 2^32`; here that is the
   * argument's type.
   */
  function PackU32(x: bv32): (r: seq<bv8>)
    ensures |r| == 4 && ValueU32(r) == x
  {
    [(x >> 24) as bv8, ((x >> 16) & 0xFF) as bv8, ((x >> 8) & 0xFF) as bv8, (x & 0xFF) as bv8]
  }

  /** Every four bytes are the packing of the value they encode. */
  lemma ValueU32Pack(s: seq<bv8>)
    requires |s| == 4
    ensures PackU32(ValueU32(s)) == s
  {
  }
}
