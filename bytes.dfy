/** Bytes, fixed-size records, and the 32-bit integer layout the decoders read. */
module Bytes {

  /** One unsigned 8-bit value as read from a file. Bit operations on bytes are written with
      `/` and `%` by powers of two: `b >> k` is `b / 2^k` and `b & (2^k - 1)` is `b % 2^k`. */
  type Byte = b: int | 0 <= b < 256

  /** A 6-byte raw record (AEDAT 1.0, DVS128). */
  type Record6 = r: seq<Byte> | |r| == 6 witness [0, 0, 0, 0, 0, 0]

  /** An 8-byte raw record (AEDAT 2.0, and the td / aps dump files). */
  type Record8 = r: seq<Byte> | |r| == 8 witness [0, 0, 0, 0, 0, 0, 0, 0]

  const TwoTo32: nat := 0x1_0000_0000
  const TwoTo16: nat := 0x1_0000

  /** The little-endian 32-bit value of four bytes: `b0 | b1 << 8 | b2 << 16 | b3 << 24`. */
  function LE32(b0: Byte, b1: Byte, b2: Byte, b3: Byte): (v: nat)
    ensures v < TwoTo32
  {
    b0 + 0x100 * b1 + 0x1_0000 * b2 + 0x100_0000 * b3
  }

  /** Byte `k` (0 = least significant) of a 32-bit value. */
  function ByteOf(v: nat, k: nat): Byte
    requires k < 4
  {
    if k == 0 then v % 0x100
    else if k == 1 then (v / 0x100) % 0x100
    else if k == 2 then (v / 0x1_0000) % 0x100
    else (v / 0x100_0000) % 0x100
  }

  /** Reassembling the four bytes of a 32-bit value gives the value back. */
  lemma LE32OfBytes(v: nat)
    requires v < TwoTo32
    ensures LE32(ByteOf(v, 0), ByteOf(v, 1), ByteOf(v, 2), ByteOf(v, 3)) == v
  {
    var q1 := v / 0x100;
    var q2 := q1 / 0x100;
    var q3 := q2 / 0x100;
    assert v == v % 0x100 + 0x100 * q1;
    assert q1 == q1 % 0x100 + 0x100 * q2;
    assert q2 == q2 % 0x100 + 0x100 * q3;
    assert q2 == v / 0x1_0000;
    assert q3 == v / 0x100_0000;
    assert q3 < 0x100;
  }

  const LineFeed: Byte := 10

  /** The index of the first line feed at or after `pos`, or `|bytes|` when there is none. */
  function LineEnd(bytes: seq<Byte>, pos: nat): (nl: nat)
    requires pos <= |bytes|
    ensures pos <= nl <= |bytes|
    ensures nl < |bytes| ==> bytes[nl] == LineFeed
    ensures forall i :: pos <= i < nl ==> bytes[i] != LineFeed
    decreases |bytes| - pos
  {
    if pos == |bytes| || bytes[pos] == LineFeed then pos else LineEnd(bytes, pos + 1)
  }

  /** The complete `n`-byte records of `bytes`, in order, with a trailing incomplete record
      dropped: what a loop of `read(n)` calls that stops at the first short read delivers. */
  function Chunks(bytes: seq<Byte>, n: nat): (rs: seq<seq<Byte>>)
    requires n > 0
    ensures n * |rs| <= |bytes| < n * |rs| + n
    ensures forall k :: 0 <= k < |rs| ==> |rs[k]| == n && n * k + n <= |bytes| && rs[k] == bytes[n * k .. n * k + n]
    decreases |bytes|
  {
    if |bytes| < n then []
    else
      var rest := Chunks(bytes[n..], n);
      ChunksShift(bytes, n, rest);
      [bytes[..n]] + rest
  }

  lemma ChunksShift(bytes: seq<Byte>, n: nat, rest: seq<seq<Byte>>)
    requires 0 < n <= |bytes|
    requires n * |rest| <= |bytes| - n < n * |rest| + n
    requires forall k :: 0 <= k < |rest| ==> |rest[k]| == n && n * k + n <= |bytes| - n && rest[k] == bytes[n..][n * k .. n * k + n]
    ensures n * |[bytes[..n]] + rest| <= |bytes| < n * |[bytes[..n]] + rest| + n
    ensures forall k :: 0 <= k < |rest| + 1 ==> n * k + n <= |bytes| && ([bytes[..n]] + rest)[k] == bytes[n * k .. n * k + n]
  {
    assert n * (|rest| + 1) == n * |rest| + n;
    forall k | 0 <= k < |rest| + 1
      ensures n * k + n <= |bytes| && ([bytes[..n]] + rest)[k] == bytes[n * k .. n * k + n]
    {
      if k > 0 {
        assert n * k == n * (k - 1) + n;
        assert rest[k - 1] == bytes[n..][n * (k - 1) .. n * (k - 1) + n];
      }
    }
  }

  /** 8-byte records of a byte string. */
  function Records8(bytes: seq<Byte>): (rs: seq<Record8>)
    ensures 8 * |rs| <= |bytes| < 8 * |rs| + 8
    ensures forall k :: 0 <= k < |rs| ==> 8 * k + 8 <= |bytes| && rs[k] == bytes[8 * k .. 8 * k + 8]
  {
    Chunks(bytes, 8)
  }

  /** 6-byte records of a byte string. */
  function Records6(bytes: seq<Byte>): (rs: seq<Record6>)
    ensures 6 * |rs| <= |bytes| < 6 * |rs| + 6
    ensures forall k :: 0 <= k < |rs| ==> 6 * k + 6 <= |bytes| && rs[k] == bytes[6 * k .. 6 * k + 6]
  {
    Chunks(bytes, 6)
  }
}
