/** The fixed 8-byte record layout of the td and aps dump files (source/datToEs.cpp), and
    the event it decodes to. */
module DatRecords {
  import opened Bytes

  /** sepia::Event: a pixel position, a 64-bit timestamp, whether the event comes from the
      threshold (aps) channel, and the polarity bit. */
  datatype Event = Event(x: nat, y: nat, t: nat, isThresholdCrossing: bool, polarity: bool)

  /** A value-initialised sepia::Event{}: what a buffered event holds before any record was
      decoded into it. */
  const DefaultEvent := Event(0, 0, 0, false, false)

  /** The sensor geometry of this format is fixed. */
  const Width: nat := 304
  const Height: nat := 240
  const TableSize: nat := Width * Height

  /** The 8-bit value the y coordinate is flipped from: bit 0 of byte 6 above bits 1-7 of
      byte 5, that is `((b6 & 0x01) << 7) | ((b5 & 0xfe) >> 1)`. */
  function RawRow(r: Record8): (v: nat)
    ensures v < 256
  {
    var b5: int, b6: int := r[5], r[6];
    128 * (b6 % 2) + b5 / 2
  }

  /** Decodes one record; `threshold` is false for the td channel and true for the aps
      channel. The timestamp is little-endian over bytes 0-3, x is `((b5 & 1) << 8) | b4`,
      y is `239 - RawRow` truncated to uint16, and the polarity is bit 1 of byte 6. */
  function Decode(r: Record8, threshold: bool): (e: Event)
    ensures e.t < TwoTo32 && e.x < 512 && e.y < TwoTo16
    ensures e.isThresholdCrossing == threshold
  {
    var b4: int, b5: int, b6: int := r[4], r[5], r[6];
    Event(256 * (b5 % 2) + b4, (239 - RawRow(r)) % TwoTo16, LE32(r[0], r[1], r[2], r[3]),
          threshold, (b6 / 2) % 2 == 1)
  }

  function TdEvent(r: Record8): Event { Decode(r, false) }
  function ApsEvent(r: Record8): Event { Decode(r, true) }

  /** The position of the event's pixel in the per-pixel threshold table, `x + 304 * y`. */
  function PixelIndex(e: Event): nat { e.x + Width * e.y }

  /** A pixel of the sensor addresses an entry of the threshold table. */
  lemma PixelOnSensor(e: Event)
    requires e.x < Width && e.y < Height
    ensures PixelIndex(e) < TableSize
  {
    assert Width * e.y <= Width * (Height - 1);
  }

  /** Every record of an aps channel addresses an entry of the threshold table. The source
      indexes its `std::array` without a check, so this is what its callers must ensure. */
  ghost predicate ApsInRange(aps: seq<Record8>) {
    forall k :: 0 <= k < |aps| ==> PixelIndex(ApsEvent(aps[k])) < TableSize
  }

  lemma OneRecordInRange(r: Record8)
    requires PixelIndex(ApsEvent(r)) < TableSize
    ensures ApsInRange([r])
  {
    assert forall k :: 0 <= k < 1 ==> [r][k] == r;
  }

  /** The decoded channels, record by record. */
  function DecodedTd(td: seq<Record8>): (d: seq<Event>)
    ensures |d| == |td| && forall k :: 0 <= k < |td| ==> d[k] == TdEvent(td[k])
  {
    seq(|td|, k requires 0 <= k < |td| => TdEvent(td[k]))
  }

  function DecodedAps(aps: seq<Record8>): (d: seq<Event>)
    ensures |d| == |aps| && forall k :: 0 <= k < |aps| ==> d[k] == ApsEvent(aps[k])
  {
    seq(|aps|, k requires 0 <= k < |aps| => ApsEvent(aps[k]))
  }

  /** The record that stores a pixel event of the sensor in this layout. */
  function Encode(x: nat, y: nat, t: nat, polarity: bool): (r: Record8)
    requires x < 512 && y < Height && t < TwoTo32
  {
    var v := 239 - y;
    [ByteOf(t, 0), ByteOf(t, 1), ByteOf(t, 2), ByteOf(t, 3),
     x % 256, x / 256 + 2 * (v % 128), v / 128 + 2 * (if polarity then 1 else 0), 0]
  }

  /** Decoding an encoded pixel event gives it back, on either channel. */
  lemma DecodeEncode(x: nat, y: nat, t: nat, polarity: bool, threshold: bool)
    requires x < 512 && y < Height && t < TwoTo32
    ensures Decode(Encode(x, y, t, polarity), threshold) == Event(x, y, t, threshold, polarity)
  {
    var r := Encode(x, y, t, polarity);
    var v := 239 - y;
    var b4: int, b5: int, b6: int := r[4], r[5], r[6];
    SplitLowBit(x / 256, v % 128);
    SplitLowBit(v / 128, if polarity then 1 else 0);
    assert b5 % 2 == x / 256 && b5 / 2 == v % 128;
    assert b6 % 2 == v / 128 && (b6 / 2) % 2 == (if polarity then 1 else 0);
    assert 256 * (b5 % 2) + b4 == x;
    assert RawRow(r) == v by {
      assert v == 128 * (v / 128) + v % 128;
    }
    assert (239 - RawRow(r)) % TwoTo16 == y;
    LE32OfBytes(t);
    assert LE32(r[0], r[1], r[2], r[3]) == t;
  }

  /** `lo | hi << 1` splits back into `lo` and `hi` when `lo` is one bit. */
  lemma SplitLowBit(lo: nat, hi: nat)
    requires lo < 2
    ensures (lo + 2 * hi) % 2 == lo && (lo + 2 * hi) / 2 == hi
  {
  }

  /** The y coordinate lies on the sensor exactly when the raw row is at most 239; a larger
      raw row wraps around to a uint16 value of at least 65520. */
  lemma RowWraps(r: Record8, threshold: bool)
    ensures Decode(r, threshold).y < Height <==> RawRow(r) < Height
    ensures RawRow(r) < Height ==> Decode(r, threshold).y == 239 - RawRow(r)
    ensures RawRow(r) >= Height ==> Decode(r, threshold).y == TwoTo16 + 239 - RawRow(r) >= 65520
  {
  }

  /** A td record that meets the precondition of the merge's priming finding: the record
      `05 00 00 00 00 00 00 00` decodes to timestamp 5. */
  lemma TdWitness(r: Record8)
    requires r == [5, 0, 0, 0, 0, 0, 0, 0]
    ensures TdEvent(r).t == 5
  {
    assert LE32(r[0], r[1], r[2], r[3]) == 5;
  }

  /** The record of the aps event at pixel (0, 239) with timestamp 0 and polarity false is the
      all-zero record. */
  lemma ZeroRecord()
    ensures Encode(0, 239, 0, false) == [0, 0, 0, 0, 0, 0, 0, 0]
  {
  }

  /** An aps record that meets the precondition of the empty-td finding: the all-zero record
      decodes to timestamp 0 at a pixel that lies in the threshold table. */
  lemma ApsWitness(z: Record8)
    requires z == Encode(0, 239, 0, false)
    ensures z == [0, 0, 0, 0, 0, 0, 0, 0]
    ensures ApsEvent(z).t == 0 && ApsInRange([z])
  {
    ZeroRecord();
    DecodeEncode(0, 239, 0, false, true);
    PixelOnSensor(ApsEvent(z));
    OneRecordInRange(z);
  }
}
