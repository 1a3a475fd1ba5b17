/** Bytes as bits, most significant bit first, and big-endian numbers. */
module BitPacking {
  import opened Prelude

  // ----- one byte -----

  function ShiftRight(b: byte, k: nat): byte {
    if k == 0 then b else ShiftRight(b, k - 1) / 2
  }

  /** Bit `k` of a byte, counted from the most significant end. */
  function BitOf(b: byte, k: nat): bit
    requires k < 8
  {
    ShiftRight(b, 7 - k) % 2
  }

  /** Bit `i` of a bit string, or the zero that packing pads with. */
  function PaddedBit(bits: Bits, i: nat): bit {
    if i < |bits| then bits[i] else 0
  }

  /** Byte `k` of a packed bit string. */
  function PackedByte(bits: Bits, k: nat): byte {
    128 * PaddedBit(bits, 8 * k) + 64 * PaddedBit(bits, 8 * k + 1)
    + 32 * PaddedBit(bits, 8 * k + 2) + 16 * PaddedBit(bits, 8 * k + 3)
    + 8 * PaddedBit(bits, 8 * k + 4) + 4 * PaddedBit(bits, 8 * k + 5)
    + 2 * PaddedBit(bits, 8 * k + 6) + PaddedBit(bits, 8 * k + 7)
  }

  /** The first `k` halvings of a byte, spelled out. */
  lemma Halvings(b: byte)
    ensures ShiftRight(b, 0) == b
    ensures ShiftRight(b, 1) == ShiftRight(b, 0) / 2
    ensures ShiftRight(b, 2) == ShiftRight(b, 1) / 2
    ensures ShiftRight(b, 3) == ShiftRight(b, 2) / 2
    ensures ShiftRight(b, 4) == ShiftRight(b, 3) / 2
    ensures ShiftRight(b, 5) == ShiftRight(b, 4) / 2
    ensures ShiftRight(b, 6) == ShiftRight(b, 5) / 2
    ensures ShiftRight(b, 7) == ShiftRight(b, 6) / 2
  {
  }

  lemma ByteFromItsBits(b: byte)
    ensures b == 128 * BitOf(b, 0) + 64 * BitOf(b, 1) + 32 * BitOf(b, 2) + 16 * BitOf(b, 3)
                 + 8 * BitOf(b, 4) + 4 * BitOf(b, 5) + 2 * BitOf(b, 6) + BitOf(b, 7)
  {
    Halvings(b);
  }

  /** Shifting a byte given by its bits. */
  lemma ShiftedOctet(b: byte, b0: int, b1: int, b2: int, b3: int, b4: int, b5: int, b6: int, b7: int)
    requires 0 <= b0 < 2 && 0 <= b1 < 2 && 0 <= b2 < 2 && 0 <= b3 < 2
    requires 0 <= b4 < 2 && 0 <= b5 < 2 && 0 <= b6 < 2 && 0 <= b7 < 2
    requires b == 128 * b0 + 64 * b1 + 32 * b2 + 16 * b3 + 8 * b4 + 4 * b5 + 2 * b6 + b7
    ensures BitOf(b, 0) == b0 && BitOf(b, 1) == b1 && BitOf(b, 2) == b2 && BitOf(b, 3) == b3
    ensures BitOf(b, 4) == b4 && BitOf(b, 5) == b5 && BitOf(b, 6) == b6 && BitOf(b, 7) == b7
  {
    Halvings(b);
    assert ShiftRight(b, 1) == 64 * b0 + 32 * b1 + 16 * b2 + 8 * b3 + 4 * b4 + 2 * b5 + b6;
    assert ShiftRight(b, 2) == 32 * b0 + 16 * b1 + 8 * b2 + 4 * b3 + 2 * b4 + b5;
    assert ShiftRight(b, 3) == 16 * b0 + 8 * b1 + 4 * b2 + 2 * b3 + b4;
    assert ShiftRight(b, 4) == 8 * b0 + 4 * b1 + 2 * b2 + b3;
    assert ShiftRight(b, 5) == 4 * b0 + 2 * b1 + b2;
    assert ShiftRight(b, 6) == 2 * b0 + b1;
    assert ShiftRight(b, 7) == b0;
  }

  lemma BitsOfPackedByte(bits: Bits, k: nat, i: nat)
    requires i < 8
    ensures BitOf(PackedByte(bits, k), i) == PaddedBit(bits, 8 * k + i)
  {
    ShiftedOctet(PackedByte(bits, k),
                 PaddedBit(bits, 8 * k), PaddedBit(bits, 8 * k + 1), PaddedBit(bits, 8 * k + 2),
                 PaddedBit(bits, 8 * k + 3), PaddedBit(bits, 8 * k + 4), PaddedBit(bits, 8 * k + 5),
                 PaddedBit(bits, 8 * k + 6), PaddedBit(bits, 8 * k + 7));
  }

  // ----- whole strings -----

  function BytesToBits(data: Bytes): (bits: Bits)
    ensures |bits| == 8 * |data|
  {
    seq(8 * |data|, i requires 0 <= i < 8 * |data| => BitOf(data[i / 8], i % 8))
  }

  /** Packs eight bits to a byte; a short last group is filled up with zeros. */
  function BitsToBytes(bits: Bits): (data: Bytes)
    ensures |data| == (|bits| + 7) / 8
  {
    seq((|bits| + 7) / 8, k requires 0 <= k => PackedByte(bits, k))
  }

  lemma UnpackedBit(data: Bytes, k: nat, i: nat)
    requires k < |data| && i < 8
    ensures PaddedBit(BytesToBits(data), 8 * k + i) == BitOf(data[k], i)
  {
    assert (8 * k + i) / 8 == k && (8 * k + i) % 8 == i;
  }

  lemma PackedUnpackedByte(data: Bytes, k: nat)
    requires k < |data|
    ensures PackedByte(BytesToBits(data), k) == data[k]
  {
    UnpackedBit(data, k, 0);
    UnpackedBit(data, k, 1);
    UnpackedBit(data, k, 2);
    UnpackedBit(data, k, 3);
    UnpackedBit(data, k, 4);
    UnpackedBit(data, k, 5);
    UnpackedBit(data, k, 6);
    UnpackedBit(data, k, 7);
    PackedByteOfBits(BytesToBits(data), k, data[k]);
  }

  lemma PackedByteOfBits(bits: Bits, k: nat, b: byte)
    requires PaddedBit(bits, 8 * k) == BitOf(b, 0) && PaddedBit(bits, 8 * k + 1) == BitOf(b, 1)
    requires PaddedBit(bits, 8 * k + 2) == BitOf(b, 2) && PaddedBit(bits, 8 * k + 3) == BitOf(b, 3)
    requires PaddedBit(bits, 8 * k + 4) == BitOf(b, 4) && PaddedBit(bits, 8 * k + 5) == BitOf(b, 5)
    requires PaddedBit(bits, 8 * k + 6) == BitOf(b, 6) && PaddedBit(bits, 8 * k + 7) == BitOf(b, 7)
    ensures PackedByte(bits, k) == b
  {
    ByteFromItsBits(b);
  }

  lemma PackAfterUnpack(data: Bytes)
    ensures BitsToBytes(BytesToBits(data)) == data
  {
    forall k | 0 <= k < |data|
      ensures PackedByte(BytesToBits(data), k) == data[k]
    {
      PackedUnpackedByte(data, k);
    }
  }

  /** Unpacking gives back the packed bits followed by the padding, whatever their number. */
  lemma UnpackAfterPack(bits: Bits)
    ensures BytesToBits(BitsToBytes(bits)) == bits + Zeros(8 * ((|bits| + 7) / 8) - |bits|)
  {
    var data := BitsToBytes(bits);
    forall i | 0 <= i < 8 * |data|
      ensures BytesToBits(data)[i] == PaddedBit(bits, i)
    {
      BitsOfPackedByte(bits, i / 8, i % 8);
    }
  }

  lemma UnpackAfterPackWhole(bits: Bits)
    requires |bits| % 8 == 0
    ensures BytesToBits(BitsToBytes(bits)) == bits
  {
    UnpackAfterPack(bits);
  }

  // ----- big-endian numbers -----

  function FromBigEndian(s: Bytes): nat {
    if s == [] then 0 else 256 * FromBigEndian(s[..|s| - 1]) + s[|s| - 1]
  }

  /** 256 to the power `width`: how many values `width` bytes can hold. */
  function Span(width: nat): (n: nat)
    ensures n > 0
  {
    if width == 0 then 1 else 256 * Span(width - 1)
  }

  /** The first byte is the most significant one. */
  lemma {:induction false} FirstByteWeighsMost(first: byte, rest: Bytes)
    ensures FromBigEndian([first] + rest) == first * Span(|rest|) + FromBigEndian(rest)
  {
    if rest == [] {
      assert [first] + rest == [first];
    } else {
      var init := rest[..|rest| - 1];
      FirstByteWeighsMost(first, init);
      assert ([first] + rest)[..|rest|] == [first] + init;
      assert Span(|rest|) == 256 * Span(|init|);
    }
  }

  /** The `width` big-endian bytes of a number, or of its last ones. */
  function BigEndian(n: nat, width: nat): (s: Bytes)
    ensures |s| == width
  {
    if width == 0 then [] else BigEndian(n / 256, width - 1) + [n % 256]
  }

  lemma {:induction false} BigEndianRoundTrip(s: Bytes)
    ensures FromBigEndian(s) < Span(|s|)
    ensures BigEndian(FromBigEndian(s), |s|) == s
  {
    if s != [] {
      BigEndianRoundTrip(s[..|s| - 1]);
      assert s == s[..|s| - 1] + [s[|s| - 1]];
    }
  }

  /** struct's codes B, H and I: the bytes of a number that fits one, two or four of them. */
  function Uint8(n: nat): Bytes
    requires n < 0x100
  {
    [n]
  }

  function Uint16(n: nat): (s: Bytes)
    requires n < 0x1_0000
    ensures |s| == 2
  {
    [n / 0x100, n % 0x100]
  }

  function Uint32(n: nat): (s: Bytes)
    requires n < 0x1_0000_0000
    ensures |s| == 4
  {
    Uint16(n / 0x1_0000) + Uint16(n % 0x1_0000)
  }

  lemma OneByte(s: Bytes)
    requires |s| == 1
    ensures FromBigEndian(s) == s[0]
  {
  }

  lemma TwoBytes(s: Bytes)
    requires |s| == 2
    ensures FromBigEndian(s) == 0x100 * s[0] as int + s[1] as int
  {
    OneByte(s[..1]);
  }

  lemma FourBytes(s: Bytes)
    requires |s| == 4
    ensures FromBigEndian(s) == 0x1_0000 * (0x100 * s[0] as int + s[1] as int) + (0x100 * s[2] as int + s[3] as int)
  {
    assert s[..3][..2] == s[..2];
    TwoBytes(s[..2]);
  }

  /** Each field width gives back the number it was given, and prints back what was parsed. */
  lemma Uint8RoundTrip(n: nat, s: Bytes)
    requires n < 0x100 && |s| == 1
    ensures FromBigEndian(Uint8(n)) == n
    ensures FromBigEndian(s) < 0x100 && Uint8(FromBigEndian(s)) == s
  {
    OneByte(s);
    OneByte(Uint8(n));
  }

  lemma Uint16RoundTrip(n: nat, s: Bytes)
    requires n < 0x1_0000 && |s| == 2
    ensures FromBigEndian(Uint16(n)) == n
    ensures FromBigEndian(s) < 0x1_0000 && Uint16(FromBigEndian(s)) == s
  {
    TwoBytes(s);
    TwoBytes(Uint16(n));
  }

  lemma Uint32RoundTrip(n: nat, s: Bytes)
    requires n < 0x1_0000_0000 && |s| == 4
    ensures FromBigEndian(Uint32(n)) == n
    ensures FromBigEndian(s) < 0x1_0000_0000 && Uint32(FromBigEndian(s)) == s
  {
    FourBytes(s);
    FourBytes(Uint32(n));
    Uint16RoundTrip(n / 0x1_0000, s[..2]);
    Uint16RoundTrip(n % 0x1_0000, s[2..]);
    TwoBytes(s[..2]);
    TwoBytes(s[2..]);
    var high: int, low: int := FromBigEndian(s[..2]), FromBigEndian(s[2..]);
    assert (0x1_0000 * high + low) / 0x1_0000 == high && (0x1_0000 * high + low) % 0x1_0000 == low;
  }
}
