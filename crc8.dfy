/**
 * The bitwise CRC-8 of the frame codec: generator polynomial 0x07
 * (x^8 + x^2 + x + 1), initial register 0x00, most significant bit first,
 * no final XOR. The register is a bv8, so the source's `crc &= 0xFF` after
 * every shift is built into the type.
 */
module Checksum {
  import opened Wrappers

  const CRC8_POLYNOMIAL: bv8 := 0x07

  /** One shift of the register: XOR the polynomial in when the bit shifted out was set. */
  function Shift(crc: bv8): bv8 {
    if crc & 0x80 != 0 then (crc << 1) ^ CRC8_POLYNOMIAL else crc << 1
  }

  /** n shifts of the register. */
  function Shifts(crc: bv8, n: nat): bv8 {
    if n == 0 then crc else Shift(Shifts(crc, n - 1))
  }

  /** Feeding one byte: XOR it into the register, then shift eight times. */
  function FeedByte(crc: bv8, b: bv8): bv8 {
    Shifts(crc ^ b, 8)
  }

  /** The register after feeding `data`, front to back, into a register holding `crc`. */
  function CrcFrom(crc: bv8, data: seq<bv8>): bv8
    decreases |data|
  {
    if data == [] then crc else CrcFrom(FeedByte(crc, data[0]), data[1..])
  }

  /** The checksum `calculate_crc8` computes: the register starts at 0x00. */
  function Crc8(data: seq<bv8>): bv8 {
    CrcFrom(0x00, data)
  }

  /**
   * `calculate_crc8`: the byte loop with its nested eight-step shift loop,
   * computing exactly the left fold Crc8.
   */
  method CalculateCrc8(data: seq<bv8>) returns (crc: bv8)
    ensures crc == Crc8(data)
    ensures data == [] ==> crc == 0x00
  {
    crc := 0x00;
    for i := 0 to |data|
      invariant crc == Crc8(data[..i])
    {
      ghost var before := crc;
      crc := crc ^ data[i];
      for j := 0 to 8
        invariant crc == Shifts(before ^ data[i], j)
      {
        if crc & 0x80 != 0 {
          crc := (crc << 1) ^ CRC8_POLYNOMIAL;
        } else {
          crc := crc << 1;
        }
      }
      CrcSnoc(0x00, data[..i], data[i]);
      assert data[..i + 1] == data[..i] + [data[i]];
    }
    assert data[..|data|] == data;
  }

  /** `verify_crc8`: the received checksum (possibly absent) equals the one recomputed over the data. */
  predicate VerifyCrc8(data: seq<bv8>, received: Option<int>) {
    received == Some(Crc8(data) as int)
  }

  // ---------------------------------------------------------------------------
  // The fold

  /** Feeding a sequence in two parts is feeding it whole. */
  lemma {:induction false} CrcFromAppend(crc: bv8, a: seq<bv8>, b: seq<bv8>)
    ensures CrcFrom(crc, a + b) == CrcFrom(CrcFrom(crc, a), b)
    decreases |a|
  {
    if a != [] {
      assert (a + b)[0] == a[0];
      assert (a + b)[1..] == a[1..] + b;
      var c := FeedByte(crc, a[0]);
      assert CrcFrom(crc, a + b) == CrcFrom(c, a[1..] + b);
      CrcFromAppend(c, a[1..], b);
    } else {
      assert a + b == b;
    }
  }

  /**
   * The CRC is a left fold over the bytes: the checksum of d ++ [b] is eight
   * rounds of "shift left, XOR 0x07 if the top bit was set" applied to crc(d) XOR b.
   */
  lemma CrcSnoc(crc: bv8, d: seq<bv8>, b: bv8)
    ensures CrcFrom(crc, d + [b]) == Shifts(CrcFrom(crc, d) ^ b, 8)
  {
    CrcFromAppend(crc, d, [b]);
  }

  // ---------------------------------------------------------------------------
  // Error detection

  /** A shift loses no information: its low bit records the bit shifted out. */
  lemma ShiftInjective(x: bv8, y: bv8)
    requires x != y
    ensures Shift(x) != Shift(y)
  {
  }

  lemma {:induction false} ShiftsInjective(x: bv8, y: bv8, n: nat)
    requires x != y
    ensures Shifts(x, n) != Shifts(y, n)
  {
    if n > 0 {
      ShiftsInjective(x, y, n - 1);
      ShiftInjective(Shifts(x, n - 1), Shifts(y, n - 1));
    }
  }

  /** Registers that differ stay different whatever bytes follow. */
  lemma {:induction false} CrcFromInjective(c1: bv8, c2: bv8, d: seq<bv8>)
    requires c1 != c2
    ensures CrcFrom(c1, d) != CrcFrom(c2, d)
    decreases |d|
  {
    if d != [] {
      ShiftsInjective(c1 ^ d[0], c2 ^ d[0], 8);
      CrcFromInjective(FeedByte(c1, d[0]), FeedByte(c2, d[0]), d[1..]);
    }
  }

  /** The checksum of d split at byte i: the prefix, then byte i, then the rest. */
  lemma CrcSplitAt(d: seq<bv8>, i: nat)
    requires i < |d|
    ensures Crc8(d) == CrcFrom(FeedByte(Crc8(d[..i]), d[i]), d[i + 1..])
  {
    assert d == (d[..i] + [d[i]]) + d[i + 1..];
    CrcFromAppend(0x00, d[..i] + [d[i]], d[i + 1..]);
    CrcSnoc(0x00, d[..i], d[i]);
  }

  /** XOR with a common register keeps distinct bytes distinct. */
  lemma XorDistinct(c: bv8, x: bv8, y: bv8)
    requires x != y
    ensures c ^ x != c ^ y
  {
  }

  /** Two different bytes fed into the same register give different checksums, whatever follows. */
  lemma FeedDistinct(c: bv8, x: bv8, y: bv8, rest: seq<bv8>)
    requires x != y
    ensures CrcFrom(FeedByte(c, x), rest) != CrcFrom(FeedByte(c, y), rest)
  {
    XorDistinct(c, x, y);
    ShiftsInjective(c ^ x, c ^ y, 8);
    CrcFromInjective(FeedByte(c, x), FeedByte(c, y), rest);
  }

  /** Any change confined to one byte changes the checksum. */
  lemma ByteChangeDetected(d: seq<bv8>, i: nat, b: bv8)
    requires i < |d| && b != d[i]
    ensures Crc8(d[i := b]) != Crc8(d)
  {
    var e := d[i := b];
    assert e[..i] == d[..i] && e[i + 1..] == d[i + 1..] && e[i] == b;
    CrcSplitAt(d, i);
    CrcSplitAt(e, i);
    FeedDistinct(Crc8(d[..i]), d[i], b, d[i + 1..]);
  }

  /** Data checked against its own checksum verifies. */
  lemma VerifyOwnCrc(d: seq<bv8>)
    ensures VerifyCrc8(d, Some(Crc8(d) as int))
  {
  }

  /** A checksum computed before a one-byte change no longer verifies after it. */
  lemma StaleCrcRejected(d: seq<bv8>, i: nat, b: bv8)
    requires i < |d| && b != d[i]
    ensures !VerifyCrc8(d[i := b], Some(Crc8(d) as int))
  {
    ByteChangeDetected(d, i, b);
  }

  /** Feeding one byte, written out as the eight shifts of the inner loop. */
  lemma FeedByteUnrolled(crc: bv8, b: bv8)
    ensures FeedByte(crc, b) == Shift(Shift(Shift(Shift(Shift(Shift(Shift(Shift(crc ^ b))))))))
  {
    var x := crc ^ b;
    assert Shifts(x, 1) == Shift(x);
    assert Shifts(x, 2) == Shift(Shifts(x, 1));
    assert Shifts(x, 3) == Shift(Shifts(x, 2));
    assert Shifts(x, 4) == Shift(Shifts(x, 3));
    assert Shifts(x, 5) == Shift(Shifts(x, 4));
    assert Shifts(x, 6) == Shift(Shifts(x, 5));
    assert Shifts(x, 7) == Shift(Shifts(x, 6));
    assert Shifts(x, 8) == Shift(Shifts(x, 7));
  }

  /** The register values the check string passes through, byte by byte. */
  lemma CheckSteps()
    ensures FeedByte(0x00, 0x31) == 0x97 && FeedByte(0x97, 0x32) == 0x72 && FeedByte(0x72, 0x33) == 0xC0
    ensures FeedByte(0xC0, 0x34) == 0xC2 && FeedByte(0xC2, 0x35) == 0xCB && FeedByte(0xCB, 0x36) == 0xFD
    ensures FeedByte(0xFD, 0x37) == 0x78 && FeedByte(0x78, 0x38) == 0xC7 && FeedByte(0xC7, 0x39) == 0xF4
  {
    FeedByteUnrolled(0x00, 0x31);
    FeedByteUnrolled(0x97, 0x32);
    FeedByteUnrolled(0x72, 0x33);
    FeedByteUnrolled(0xC0, 0x34);
    FeedByteUnrolled(0xC2, 0x35);
    FeedByteUnrolled(0xCB, 0x36);
    FeedByteUnrolled(0xFD, 0x37);
    FeedByteUnrolled(0x78, 0x38);
    FeedByteUnrolled(0xC7, 0x39);
  }

  /** One step of the fold at position k. */
  lemma FoldAt(crc: bv8, d: seq<bv8>, k: nat)
    requires k < |d|
    ensures CrcFrom(crc, d[k..]) == CrcFrom(FeedByte(crc, d[k]), d[k + 1..])
  {
    assert d[k..][0] == d[k] && d[k..][1..] == d[k + 1..];
  }

  /** The published check value of this CRC-8 (poly 0x07, init 0x00, no reflection, no final XOR) over ASCII "123456789". */
  lemma CheckValue()
    ensures Crc8([0x31, 0x32, 0x33, 0x34, 0x35, 0x36, 0x37, 0x38, 0x39]) == 0xF4
  {
    var d: seq<bv8> := [0x31, 0x32, 0x33, 0x34, 0x35, 0x36, 0x37, 0x38, 0x39];
    CheckSteps();
    assert d[0..] == d;
    FoldAt(0x00, d, 0);
    FoldAt(0x97, d, 1);
    FoldAt(0x72, d, 2);
    FoldAt(0xC0, d, 3);
    FoldAt(0xC2, d, 4);
    FoldAt(0xCB, d, 5);
    FoldAt(0xFD, d, 6);
    FoldAt(0x78, d, 7);
    FoldAt(0xC7, d, 8);
    assert d[9..] == [];
  }
}
