/** app/steganography/lsb_png.py: one bit in the least significant bit of each channel. */
module LsbPng {
  import opened Prelude
  import opened BitPacking
  import opened Envelopes
  import opened Primitives
  import opened PixelPermutation

  const HEADER_BITS := 368

  /** Any mode but RGBA ends up with three channels: RGB as it is, the others after a conversion
      to RGB that is not part of this model. */
  datatype Mode = RGB | RGBA | OtherMode

  /** `channels` is the flat array that the image, converted if need be, is made of. */
  datatype Image = Image(width: nat, height: nat, mode: Mode, channels: Bytes)

  function ChannelsPerPixel(mode: Mode): nat {
    if mode == RGBA then 4 else 3
  }

  predicate WellFormed(img: Image) {
    |img.channels| == img.width * img.height * ChannelsPerPixel(img.mode)
  }

  datatype EmbedError = HeaderNotPackable | CapacityExceeded | KeyDerivationFailed | EncryptionFailed

  datatype CapacityError = CapacityError

  // ----- one channel -----

  function Lsb(x: byte): bit {
    x % 2
  }

  /** The channel with its lowest bit replaced and its upper seven bits kept. */
  function SetLsb(x: byte, b: bit): (y: byte)
    ensures Lsb(y) == b && y / 2 == x / 2
  {
    x - x % 2 + b
  }

  /** On eight-bit words, the masked write `(x & 0xFE) | b` computes what SetLsb does. */
  lemma MaskedWrite(x: bv8, b: bv8)
    requires b == 0 || b == 1
    ensures ((x & 0xFE) | b) as int == x as int - x as int % 2 + b as int
  {
    assert x == (x / 2) * 2 + (x % 2);
  }

  // ----- positions -----

  function HeaderPositions(): (s: seq<nat>)
    ensures |s| == HEADER_BITS
  {
    seq(HEADER_BITS, i requires 0 <= i => i)
  }

  /** The positions after the header; none when the image is smaller than a header. */
  function Remaining(total: nat): (s: seq<nat>)
    ensures |s| == if total < HEADER_BITS then 0 else total - HEADER_BITS
  {
    seq(if total < HEADER_BITS then 0 else total - HEADER_BITS, i requires 0 <= i => HEADER_BITS + i)
  }

  /** An array of `total` channels takes a header and `length` bytes of ciphertext. */
  predicate RoomFor(total: nat, length: nat) {
    HEADER_BITS + 8 * length <= total
  }

  /** An envelope that can be embedded in `flat`. */
  predicate Fits(flat: Bytes, e: Envelope) {
    Packable(e) && RoomFor(|flat|, |e.ciphertext|)
  }

  /** The first `n` positions in the keyed order. */
  function Targets(suite: Suite, key: Bytes, total: nat, n: nat): (s: seq<nat>)
    requires HEADER_BITS + n <= total || n == 0
    ensures |s| == n
  {
    Permuted(suite, key, Remaining(total))[..n]
  }

  function PermKey(e: Envelope): Bytes {
    e.salt + e.nonce
  }

  // ----- writing -----

  predicate InRange(targets: seq<nat>, total: nat) {
    forall k :: 0 <= k < |targets| ==> targets[k] < total
  }

  /** Writes the first `n` bits, one after the other. */
  function WriteFirst(flat: Bytes, targets: seq<nat>, bits: Bits, n: nat): (r: Bytes)
    requires |targets| == |bits| && InRange(targets, |flat|) && n <= |targets|
    ensures |r| == |flat|
    decreases n
  {
    if n == 0 then flat
    else
      var before := WriteFirst(flat, targets, bits, n - 1);
      before[targets[n - 1] := SetLsb(before[targets[n - 1]], bits[n - 1])]
  }

  function WriteBits(flat: Bytes, targets: seq<nat>, bits: Bits): (r: Bytes)
    requires |targets| == |bits| && InRange(targets, |flat|)
    ensures |r| == |flat|
  {
    WriteFirst(flat, targets, bits, |targets|)
  }

  /** Every position an embedding writes, in the order of the envelope's bits. */
  function Touched(suite: Suite, e: Envelope, total: nat): (s: seq<nat>)
    requires RoomFor(total, |e.ciphertext|)
    ensures |s| == HEADER_BITS + 8 * |e.ciphertext|
  {
    HeaderPositions() + Targets(suite, PermKey(e), total, 8 * |e.ciphertext|)
  }

  function EnvelopeBits(e: Envelope): (bits: Bits)
    requires Packable(e)
    ensures |bits| == HEADER_BITS + 8 * |e.ciphertext|
  {
    BytesToBits(HeaderBytes(e).value) + BytesToBits(e.ciphertext)
  }

  /** What embedding an envelope comes to: the bits of the serialized envelope, one after the
      other, at the touched positions. */
  function Embedded(suite: Suite, flat: Bytes, e: Envelope): (r: Result<Bytes, EmbedError>)
    ensures r.Ok? <==> Fits(flat, e)
    ensures r.Ok? ==> |r.value| == |flat|
  {
    if !Packable(e) then Err(HeaderNotPackable)
    else if !RoomFor(|flat|, |e.ciphertext|) then Err(CapacityExceeded)
    else
      TouchedInRange(suite, e, |flat|);
      Ok(WriteBits(flat, Touched(suite, e, |flat|), EnvelopeBits(e)))
  }

  function EmbeddedImage(suite: Suite, img: Image, e: Envelope): Result<Image, EmbedError> {
    match Embedded(suite, img.channels, e)
    case Ok(out) => Ok(img.(mode := if img.mode == RGBA then RGBA else RGB, channels := out))
    case Err(error) => Err(error)
  }

  /** The two vectorised writes on a copy of the channels. */
  method Embed(suite: Suite, img: Image, e: Envelope) returns (r: Result<Image, EmbedError>)
    ensures r == EmbeddedImage(suite, img, e)
  {
    var total := |img.channels|;
    var flat := new byte[total](i requires 0 <= i < total => img.channels[i]);
    assert flat[..] == img.channels;
    var header := HeaderBytes(e);
    if header.Err? {
      return Err(HeaderNotPackable);
    }
    var headerBits := BytesToBits(header.value);
    var cipherBits := BytesToBits(e.ciphertext);
    if HEADER_BITS + |cipherBits| > total {
      return Err(CapacityExceeded);
    }

    forall i | 0 <= i < HEADER_BITS {
      flat[i] := SetLsb(flat[i], headerBits[i]);
    }
    ghost var headed := flat[..];

    var order := PermutedPositions(suite, PermKey(e), Remaining(total));
    var targets := order[..|cipherBits|];
    TargetsAreFree(suite, PermKey(e), total, |cipherBits|);
    forall k | 0 <= k < |targets| {
      flat[targets[k]] := SetLsb(flat[targets[k]], cipherBits[k]);
    }
    TwoVectorisedWrites(suite, img.channels, e, headed, flat[..]);
    r := Ok(img.(mode := if img.mode == RGBA then RGBA else RGB, channels := flat[..]));
  }

  // ----- reading -----

  function ReadBits(flat: Bytes, targets: seq<nat>): (bits: Bits)
    requires InRange(targets, |flat|)
    ensures |bits| == |targets|
  {
    seq(|targets|, k requires 0 <= k < |targets| => Lsb(flat[targets[k]]))
  }

  lemma ReadBitsConcat(flat: Bytes, t1: seq<nat>, t2: seq<nat>)
    requires InRange(t1, |flat|) && InRange(t2, |flat|)
    ensures InRange(t1 + t2, |flat|)
    ensures ReadBits(flat, t1 + t2) == ReadBits(flat, t1) + ReadBits(flat, t2)
  {
  }

  function ReadHeaderRegion(flat: Bytes): Result<Bytes, CapacityError> {
    if |flat| < HEADER_BITS then Err(CapacityError)
    else Ok(BitsToBytes(ReadBits(flat, HeaderPositions())))
  }

  function ReadCiphertextRegion(suite: Suite, flat: Bytes, key: Bytes, length: nat): (r: Result<Bytes, CapacityError>)
    ensures r.Ok? <==> RoomFor(|flat|, length) || length == 0
    ensures r.Ok? ==> |r.value| == length
  {
    if 8 * length > |Remaining(|flat|)| then Err(CapacityError)
    else
      TargetsAreFree(suite, key, |flat|, 8 * length);
      Ok(BitsToBytes(ReadBits(flat, Targets(suite, key, |flat|, 8 * length))))
  }

  // ----- the positions are distinct and lie where they should -----

  /** For every key and every number of channels the keyed order runs through the positions after
      the header, each of them exactly once. */
  lemma KeyedOrderIsBijection(suite: Suite, key: Bytes, total: nat)
    ensures Distinct(Permuted(suite, key, Remaining(total)))
    ensures forall p :: p in Permuted(suite, key, Remaining(total)) <==> HEADER_BITS <= p < total
  {
    PermutedIsBijection(suite, key, Remaining(total));
    forall p | HEADER_BITS <= p < total
      ensures p in Remaining(total)
    {
      assert Remaining(total)[p - HEADER_BITS] == p;
    }
  }

  /** Targets are pairwise distinct and all lie after the header. */
  lemma TargetsAreFree(suite: Suite, key: Bytes, total: nat, n: nat)
    requires HEADER_BITS + n <= total || n == 0
    ensures Distinct(Targets(suite, key, total, n))
    ensures forall k :: 0 <= k < n ==> HEADER_BITS <= Targets(suite, key, total, n)[k] < total
  {
    var order := Permuted(suite, key, Remaining(total));
    KeyedOrderIsBijection(suite, key, total);
    assert forall k :: 0 <= k < n ==> order[k] in order;
  }

  lemma TouchedInRange(suite: Suite, e: Envelope, total: nat)
    requires RoomFor(total, |e.ciphertext|)
    ensures InRange(Touched(suite, e, total), total)
  {
    TargetsAreFree(suite, PermKey(e), total, 8 * |e.ciphertext|);
  }

  lemma TouchedDistinct(suite: Suite, e: Envelope, total: nat)
    requires RoomFor(total, |e.ciphertext|)
    ensures Distinct(Touched(suite, e, total))
  {
    TargetsAreFree(suite, PermKey(e), total, 8 * |e.ciphertext|);
  }

  // ----- sequential writes -----

  lemma {:induction false} WriteFirstFrame(flat: Bytes, targets: seq<nat>, bits: Bits, n: nat)
    requires |targets| == |bits| && InRange(targets, |flat|) && n <= |targets|
    ensures forall p :: 0 <= p < |flat| ==> WriteFirst(flat, targets, bits, n)[p] / 2 == flat[p] / 2
    ensures forall p :: 0 <= p < |flat| && p !in targets ==> WriteFirst(flat, targets, bits, n)[p] == flat[p]
    decreases n
  {
    if n > 0 {
      WriteFirstFrame(flat, targets, bits, n - 1);
      assert targets[n - 1] in targets;
    }
  }

  /** A write keeps the upper seven bits of every channel, and every channel that is not a target. */
  lemma WriteBitsFrame(flat: Bytes, targets: seq<nat>, bits: Bits)
    requires |targets| == |bits| && InRange(targets, |flat|)
    ensures forall p :: 0 <= p < |flat| ==> WriteBits(flat, targets, bits)[p] / 2 == flat[p] / 2
    ensures forall p :: 0 <= p < |flat| && p !in targets ==> WriteBits(flat, targets, bits)[p] == flat[p]
  {
    WriteFirstFrame(flat, targets, bits, |targets|);
  }

  lemma {:induction false} WriteFirstHolds(flat: Bytes, targets: seq<nat>, bits: Bits, n: nat)
    requires |targets| == |bits| && InRange(targets, |flat|) && n <= |targets|
    requires Distinct(targets)
    ensures forall k :: 0 <= k < n ==> Lsb(WriteFirst(flat, targets, bits, n)[targets[k]]) == bits[k]
    decreases n
  {
    if n > 0 {
      WriteFirstHolds(flat, targets, bits, n - 1);
    }
  }

  /** What was written at distinct positions is what is read there. */
  lemma ReadAfterWrite(flat: Bytes, targets: seq<nat>, bits: Bits)
    requires |targets| == |bits| && InRange(targets, |flat|)
    requires Distinct(targets)
    ensures ReadBits(WriteBits(flat, targets, bits), targets) == bits
  {
    WriteFirstHolds(flat, targets, bits, |targets|);
  }

  /** `out` is `flat` with the bits put at the targets, each on its own, and nothing else changed:
      NumPy's fancy-indexed assignment at distinct positions. */
  ghost predicate Scattered(flat: Bytes, targets: seq<nat>, bits: Bits, out: Bytes)
    requires |targets| == |bits| && InRange(targets, |flat|)
  {
    && |out| == |flat|
    && (forall k :: 0 <= k < |targets| ==> out[targets[k]] == SetLsb(flat[targets[k]], bits[k]))
    && (forall p :: 0 <= p < |flat| && p !in targets ==> out[p] == flat[p])
  }

  lemma ChannelByParts(x: byte, y: byte)
    requires x / 2 == y / 2 && Lsb(x) == Lsb(y)
    ensures x == y
  {
  }

  /** Arrays with the same upper bits, the same lowest bits at the targets and the same channels
      elsewhere are equal. */
  lemma ArrayByParts(a: Bytes, b: Bytes, targets: seq<nat>)
    requires |a| == |b| && InRange(targets, |a|)
    requires forall p :: 0 <= p < |a| ==> a[p] / 2 == b[p] / 2
    requires forall p :: 0 <= p < |a| && p !in targets ==> a[p] == b[p]
    requires ReadBits(a, targets) == ReadBits(b, targets)
    ensures a == b
  {
    forall p | 0 <= p < |a| && p in targets
      ensures a[p] == b[p]
    {
      var k :| 0 <= k < |targets| && targets[k] == p;
      assert ReadBits(a, targets)[k] == ReadBits(b, targets)[k];
      ChannelByParts(a[p], b[p]);
    }
  }

  /** At distinct positions one simultaneous write is the sequential one. */
  lemma VectorisedWrite(flat: Bytes, targets: seq<nat>, bits: Bits, out: Bytes)
    requires |targets| == |bits| && InRange(targets, |flat|) && Distinct(targets)
    requires Scattered(flat, targets, bits, out)
    ensures out == WriteBits(flat, targets, bits)
  {
    WriteBitsFrame(flat, targets, bits);
    ReadAfterWrite(flat, targets, bits);
    assert ReadBits(out, targets) == bits;
    forall p | 0 <= p < |flat|
      ensures out[p] / 2 == flat[p] / 2
    {
      if p in targets {
        var k :| 0 <= k < |targets| && targets[k] == p;
      }
    }
    ArrayByParts(out, WriteBits(flat, targets, bits), targets);
  }

  function Indices(n: nat): (s: seq<nat>)
    ensures |s| == n
  {
    seq(n, i requires 0 <= i => i)
  }

  /** The elements of `s` in another order. */
  function Reordered<T>(s: seq<T>, order: seq<nat>): (t: seq<T>)
    requires forall k :: 0 <= k < |order| ==> order[k] < |s|
    ensures |t| == |order|
  {
    seq(|order|, k requires 0 <= k < |order| => s[order[k]])
  }

  /** An order of `n` indices has each of them exactly once. */
  lemma OrderIsBijection(order: seq<nat>, n: nat)
    requires multiset(order) == multiset(Indices(n))
    ensures |order| == n && Distinct(order)
    ensures forall k :: k in order <==> 0 <= k < n
  {
    assert |order| == |multiset(order)| == |multiset(Indices(n))| == n;
    forall k
      ensures k in order <==> 0 <= k < n
    {
      assert k in order <==> k in multiset(order);
      assert k in Indices(n) <==> k in multiset(Indices(n));
      assert 0 <= k < n ==> Indices(n)[k] == k;
    }
    DistinctByMultiplicity(Indices(n));
    DistinctByMultiplicity(order);
  }

  /** Written at distinct positions, the (target, bit) pairs may come in any order. */
  lemma WriteOrderIsFree(flat: Bytes, targets: seq<nat>, bits: Bits, order: seq<nat>)
    requires |targets| == |bits| && InRange(targets, |flat|) && Distinct(targets)
    requires multiset(order) == multiset(Indices(|targets|))
    ensures forall k :: 0 <= k < |order| ==> order[k] < |targets|
    ensures InRange(Reordered(targets, order), |flat|)
    ensures WriteBits(flat, Reordered(targets, order), Reordered(bits, order)) == WriteBits(flat, targets, bits)
  {
    OrderIsBijection(order, |targets|);
    assert forall k :: 0 <= k < |order| ==> order[k] in order;
    var moved, out := Reordered(targets, order), WriteBits(flat, targets, bits);
    forall p | p in targets
      ensures p in moved
    {
      var k :| 0 <= k < |targets| && targets[k] == p;
      assert k in order;
      var j :| 0 <= j < |order| && order[j] == k;
      assert moved[j] == p;
    }
    WriteIsScattered(flat, targets, bits);
    VectorisedWrite(flat, moved, Reordered(bits, order), out);
  }

  /** A sequential write at distinct positions changes the targets as given and nothing else. */
  lemma WriteIsScattered(flat: Bytes, targets: seq<nat>, bits: Bits)
    requires |targets| == |bits| && InRange(targets, |flat|) && Distinct(targets)
    ensures Scattered(flat, targets, bits, WriteBits(flat, targets, bits))
  {
    var out := WriteBits(flat, targets, bits);
    WriteBitsFrame(flat, targets, bits);
    ReadAfterWrite(flat, targets, bits);
    forall k | 0 <= k < |targets|
      ensures out[targets[k]] == SetLsb(flat[targets[k]], bits[k])
    {
      assert ReadBits(out, targets)[k] == bits[k];
      ChannelByParts(out[targets[k]], SetLsb(flat[targets[k]], bits[k]));
    }
  }

  /** The header's write followed by the ciphertext's write is the one write of the envelope. */
  lemma TwoVectorisedWrites(suite: Suite, flat: Bytes, e: Envelope, headed: Bytes, out: Bytes)
    requires Fits(flat, e)
    requires InRange(HeaderPositions(), |flat|)
    requires Scattered(flat, HeaderPositions(), BytesToBits(HeaderBytes(e).value), headed)
    requires InRange(Targets(suite, PermKey(e), |flat|, 8 * |e.ciphertext|), |flat|)
    requires Scattered(headed, Targets(suite, PermKey(e), |flat|, 8 * |e.ciphertext|), BytesToBits(e.ciphertext), out)
    ensures Embedded(suite, flat, e) == Ok(out)
  {
    var targets := Targets(suite, PermKey(e), |flat|, 8 * |e.ciphertext|);
    TargetsAreFree(suite, PermKey(e), |flat|, 8 * |e.ciphertext|);
    VectorisedWrite(flat, HeaderPositions(), BytesToBits(HeaderBytes(e).value), headed);
    VectorisedWrite(headed, targets, BytesToBits(e.ciphertext), out);
    WriteBitsConcat(flat, HeaderPositions(), BytesToBits(HeaderBytes(e).value), targets, BytesToBits(e.ciphertext));
  }

  /** Only the first `n` targets and bits matter to the first `n` writes. */
  lemma {:induction false} PrefixDecides(
    flat: Bytes, t1: seq<nat>, b1: Bits, t2: seq<nat>, b2: Bits, n: nat)
    requires |t1| == |b1| && InRange(t1, |flat|) && |t2| == |b2| && InRange(t2, |flat|)
    requires n <= |t1| && n <= |t2|
    requires forall k :: 0 <= k < n ==> t1[k] == t2[k] && b1[k] == b2[k]
    ensures WriteFirst(flat, t1, b1, n) == WriteFirst(flat, t2, b2, n)
    decreases n
  {
    if n > 0 {
      PrefixDecides(flat, t1, b1, t2, b2, n - 1);
    }
  }

  lemma {:induction false} WriteFirstConcat(
    flat: Bytes, t1: seq<nat>, b1: Bits, t2: seq<nat>, b2: Bits, m: nat)
    requires |t1| == |b1| && InRange(t1, |flat|)
    requires |t2| == |b2| && InRange(t2, |flat|) && m <= |t2|
    requires InRange(t1 + t2, |flat|)
    ensures WriteFirst(flat, t1 + t2, b1 + b2, |t1| + m) == WriteFirst(WriteBits(flat, t1, b1), t2, b2, m)
    decreases m
  {
    if m == 0 {
      PrefixDecides(flat, t1 + t2, b1 + b2, t1, b1, |t1|);
    } else {
      WriteFirstConcat(flat, t1, b1, t2, b2, m - 1);
      assert (t1 + t2)[|t1| + m - 1] == t2[m - 1] && (b1 + b2)[|t1| + m - 1] == b2[m - 1];
    }
  }

  lemma WriteBitsConcat(flat: Bytes, t1: seq<nat>, b1: Bits, t2: seq<nat>, b2: Bits)
    requires |t1| == |b1| && InRange(t1, |flat|)
    requires |t2| == |b2| && InRange(t2, |flat|)
    ensures InRange(t1 + t2, |flat|)
    ensures WriteBits(flat, t1 + t2, b1 + b2) == WriteBits(WriteBits(flat, t1, b1), t2, b2)
  {
    assert InRange(t1 + t2, |flat|);
    WriteFirstConcat(flat, t1, b1, t2, b2, |t2|);
  }
}
