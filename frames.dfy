/**
 * The frame record of the codec and the bit-flip of the fault injector.
 * A payload is the UTF-8 encoding of the frame's `data` string: the bytes the
 * checksum is computed over.
 */
module Frames {
  import opened Wrappers
  import opened Checksum
  import opened Utf8

  const DATA: string := "DATA"
  const ACK: string := "ACK"

  /** `Frame(seq_num, frame_type, data=None, crc=None)`. */
  datatype Frame = Frame(seqNum: int, frameType: string, data: Option<seq<bv8>>, crc: Option<int>)

  /**
   * An acknowledgement carries only the next sequence number the receiver expects:
   * after `to_json` and `from_json` the sender reads an ACK for n with no data and
   * no crc.
   */
  function AckFrame(n: int): (f: Frame)
    ensures var r := FromRecord(ToRecord(f));
      r.Success? && r.value.frameType == ACK && r.value.seqNum == n && r.value.data.None? && r.value.crc.None?
  {
    Frame(n, ACK, None, None)
  }

  /**
   * The four fields of a decoded frame object; a field is None when its key is
   * absent (or, for `data` and `crc`, when it is null).
   */
  datatype Record = Record(seqNumField: Option<int>, frameTypeField: Option<string>,
                           dataField: Option<seq<bv8>>, crcField: Option<int>)

  datatype DecodeError = MissingKey(key: string)

  /** `to_json`: every attribute of the frame is written out. */
  function ToRecord(f: Frame): Record {
    Record(Some(f.seqNum), Some(f.frameType), f.data, f.crc)
  }

  /**
   * `from_json`: `seq_num` and `frame_type` are looked up with `[]` and fail when
   * missing; `data` and `crc` are looked up with `.get` and default to None.
   */
  function FromRecord(r: Record): Result<Frame, DecodeError> {
    if r.seqNumField.None? then Failure(MissingKey("seq_num"))
    else if r.frameTypeField.None? then Failure(MissingKey("frame_type"))
    else Success(Frame(r.seqNumField.value, r.frameTypeField.value, r.dataField, r.crcField))
  }

  /** Decoding an encoded frame gives the frame back. */
  lemma DecodeEncode(f: Frame)
    ensures FromRecord(ToRecord(f)) == Success(f)
  {
  }

  /**
   * Decoding succeeds exactly when both required keys are present, and then
   * absent optional fields become None and re-encoding gives the record back.
   */
  lemma DecodeFields(r: Record)
    ensures FromRecord(r).Success? <==> r.seqNumField.Some? && r.frameTypeField.Some?
    ensures FromRecord(r).Success? ==>
              && FromRecord(r).value.seqNum == r.seqNumField.value
              && FromRecord(r).value.frameType == r.frameTypeField.value
              && (r.dataField.None? ==> FromRecord(r).value.data.None?)
              && (r.crcField.None? ==> FromRecord(r).value.crc.None?)
              && ToRecord(FromRecord(r).value) == r
  {
  }

  // ---------------------------------------------------------------------------
  // Fault injection: the bit flip of `simulate_error`

  /** `data_bytes[byte_index] ^= 1 << bit`, with the random index and bit as parameters. */
  function FlipBit(d: seq<bv8>, i: nat, k: nat): (r: seq<bv8>)
    requires i < |d| && k < 8
    ensures |r| == |d|
    ensures r[i] != d[i]
    ensures forall j | 0 <= j < |d| && j != i :: r[j] == d[j]
  {
    d[i := d[i] ^ ((1 as bv8) << k)]
  }

  /** Flipping the same bit twice restores the data. */
  lemma FlipBitInvolution(d: seq<bv8>, i: nat, k: nat)
    requires i < |d| && k < 8
    ensures FlipBit(FlipBit(d, i, k), i, k) == d
  {
    var e := FlipBit(FlipBit(d, i, k), i, k);
    assert e[i] == d[i];
  }

  /** A single flipped bit is caught by the checksum computed before the flip. */
  lemma FlipBitDetected(d: seq<bv8>, i: nat, k: nat)
    requires i < |d| && k < 8
    ensures !VerifyCrc8(FlipBit(d, i, k), Some(Crc8(d) as int))
  {
    assert FlipBit(d, i, k) == d[i := FlipBit(d, i, k)[i]];
    StaleCrcRejected(d, i, FlipBit(d, i, k)[i]);
  }

  /**
   * `simulate_error(frame)` as written, with the random draws made explicit:
   * `selected` is the outcome of the probability test, `index` and `bit` the drawn
   * byte and bit. A selected DATA frame with a non-empty payload gets one bit of its
   * UTF-8 bytes flipped, and the result is decoded back with `errors='ignore'`, which
   * drops the bytes that no longer form UTF-8; its crc is kept. The boolean says
   * whether an error was simulated.
   */
  function SimulateError(f: Frame, selected: bool, index: nat, bit: nat): (Frame, bool)
    requires bit < 8
    requires selected && f.frameType == DATA && f.data.Some? && |f.data.value| > 0 ==> index < |f.data.value|
  {
    if f.frameType == DATA && selected then
      if f.data.Some? && |f.data.value| > 0 then
        (f.(data := Some(IgnoreInvalid(FlipBit(f.data.value, index, bit)))), true)
      else
        (f, true)
    else
      (f, false)
  }

  /**
   * `simulate_error` as its comment at gemini/utils.py:99 intends it: the same draws
   * and the same bit flip, but the damaged bytes travel as they are, so that the
   * corruption reaches the receiver's checksum.
   */
  function SimulateByteError(f: Frame, selected: bool, index: nat, bit: nat): (Frame, bool)
    requires bit < 8
    requires selected && f.frameType == DATA && f.data.Some? && |f.data.value| > 0 ==> index < |f.data.value|
  {
    if f.frameType == DATA && selected then
      if f.data.Some? && |f.data.value| > 0 then
        (f.(data := Some(FlipBit(f.data.value, index, bit))), true)
      else
        (f, true)
    else
      (f, false)
  }

  /**
   * What `simulate_error` does: non-DATA frames and frames the draw does not select
   * come back unchanged and unreported; a selected DATA frame is reported and keeps
   * its sequence number, type and crc. A non-empty payload always changes, never
   * grows, and is again text that decodes to itself; when the flipped bytes still
   * form UTF-8 it differs from the original in exactly the flipped bit.
   */
  lemma SimulateErrorEffect(f: Frame, selected: bool, index: nat, bit: nat)
    requires bit < 8
    requires selected && f.frameType == DATA && f.data.Some? && |f.data.value| > 0 ==> index < |f.data.value|
    ensures var (g, hit) := SimulateError(f, selected, index, bit);
      && hit == (selected && f.frameType == DATA)
      && (!hit ==> g == f)
      && g.seqNum == f.seqNum && g.frameType == f.frameType && g.crc == f.crc
      && (hit && f.data.Some? && |f.data.value| > 0 ==>
            && g.data.Some? && g.data.value != f.data.value
            && |g.data.value| <= |f.data.value| && Valid(g.data.value)
            && (Valid(FlipBit(f.data.value, index, bit)) ==> g.data == Some(FlipBit(f.data.value, index, bit))))
      && (hit && (f.data.None? || |f.data.value| == 0) ==> g == f)
  {
    if selected && f.frameType == DATA && f.data.Some? && |f.data.value| > 0 {
      var e := FlipBit(f.data.value, index, bit);
      IgnoreInvalidShrinks(e);
      IgnoreInvalidValid(e);
    }
  }

  /**
   * The corrected fault: the same reporting and the same untouched fields as
   * `simulate_error`, and a non-empty payload differs from the original in exactly
   * one bit of byte `index`.
   */
  lemma SimulateByteErrorEffect(f: Frame, selected: bool, index: nat, bit: nat)
    requires bit < 8
    requires selected && f.frameType == DATA && f.data.Some? && |f.data.value| > 0 ==> index < |f.data.value|
    ensures var (g, hit) := SimulateByteError(f, selected, index, bit);
      && hit == (selected && f.frameType == DATA)
      && (!hit ==> g == f)
      && g.seqNum == f.seqNum && g.frameType == f.frameType && g.crc == f.crc
      && (hit && f.data.Some? && |f.data.value| > 0 ==>
            g.data.Some? && |g.data.value| == |f.data.value|
            && g.data.value[index] == f.data.value[index] ^ ((1 as bv8) << bit)
            && forall j | 0 <= j < |f.data.value| && j != index :: g.data.value[j] == f.data.value[j])
      && (hit && (f.data.None? || |f.data.value| == 0) ==> g == f)
  {
  }

  /** Under the corrected fault, a frame whose checksum matched its payload no longer matches once hit. */
  lemma SimulatedErrorDetected(f: Frame, index: nat, bit: nat)
    requires bit < 8
    requires f.frameType == DATA && f.data.Some? && |f.data.value| > 0 && index < |f.data.value|
    requires VerifyCrc8(f.data.value, f.crc)
    ensures var (g, _) := SimulateByteError(f, true, index, bit);
      g.data.Some? && !VerifyCrc8(g.data.value, g.crc)
  {
    FlipBitDetected(f.data.value, index, bit);
  }

  /** As written, a hit is caught when the flipped bytes still decode, so that nothing is dropped. */
  lemma DecodableHitDetected(f: Frame, index: nat, bit: nat)
    requires bit < 8
    requires f.frameType == DATA && f.data.Some? && |f.data.value| > 0 && index < |f.data.value|
    requires VerifyCrc8(f.data.value, f.crc)
    requires Valid(FlipBit(f.data.value, index, bit))
    ensures var (g, _) := SimulateError(f, true, index, bit);
      g.data.Some? && !VerifyCrc8(g.data.value, g.crc)
  {
    FlipBitDetected(f.data.value, index, bit);
  }

  /** As written, on an ASCII payload a flip of one of the low seven bits stays ASCII and is always caught. */
  lemma AsciiLowBitHitDetected(f: Frame, index: nat, bit: nat)
    requires bit < 7
    requires f.frameType == DATA && f.data.Some? && IsAscii(f.data.value) && index < |f.data.value|
    requires VerifyCrc8(f.data.value, f.crc)
    ensures var (g, _) := SimulateError(f, true, index, bit);
      g.data.Some? && !VerifyCrc8(g.data.value, g.crc)
  {
    var d := f.data.value;
    var e := FlipBit(d, index, bit);
    assert e[index] < 0x80 by {
      assert e[index] == d[index] ^ ((1 as bv8) << bit) && d[index] < 0x80;
      assert ((1 as bv8) << bit) < 0x80 by {
        assert bit == 0 || bit == 1 || bit == 2 || bit == 3 || bit == 4 || bit == 5 || bit == 6;
      }
    }
    assert IsAscii(e);
    AsciiValid(e);
    DecodableHitDetected(f, index, bit);
  }

  /** As written, on an ASCII payload a flip of the top bit deletes that byte from the payload sent. */
  lemma AsciiTopBitHitDeletes(f: Frame, index: nat)
    requires f.frameType == DATA && f.data.Some? && IsAscii(f.data.value) && index < |f.data.value|
    ensures var (g, _) := SimulateError(f, true, index, 7);
      g.data == Some(f.data.value[..index] + f.data.value[index + 1..])
  {
    var d := f.data.value;
    assert FlipBit(d, index, 7) == d[index := d[index] ^ 0x80];
    AsciiTopBitDropped(d, index);
  }

  /**
   * As written, a hit can go unnoticed: in the payload "aA" a flip of the top bit of
   * 'A' makes the byte 0xC1, which no UTF-8 sequence can start, so the payload sent
   * is "a". CRC-8 of "a" equals CRC-8 of "aA" (both 0x20), so the receiver accepts
   * the damaged payload under the original checksum.
   */
  lemma RedecodedHitUndetected()
    ensures var f := Frame(0, DATA, Some([0x61, 0x41]), Some(Crc8([0x61, 0x41]) as int));
      var (g, hit) := SimulateError(f, true, 1, 7);
      hit && g.data == Some([0x61]) && VerifyCrc8([0x61], g.crc)
  {
    var d: seq<bv8> := [0x61, 0x41];
    assert IsAscii(d);
    assert d[..1] + d[2..] == [0x61];
    var f := Frame(0, DATA, Some(d), Some(Crc8(d) as int));
    AsciiTopBitHitDeletes(f, 1);
    FeedByteUnrolled(0x00, 0x61);
    FeedByteUnrolled(0x20, 0x41);
    assert Crc8(d) == CrcFrom(FeedByte(0x00, 0x61), d[1..]);
    assert Crc8([0x61]) == CrcFrom(FeedByte(0x00, 0x61), []);
  }
}
