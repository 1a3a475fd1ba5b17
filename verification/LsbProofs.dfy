/** What embedding and reading guarantee together. */
module LsbProofs {
  import opened Prelude
  import opened BitPacking
  import opened Envelopes
  import opened Primitives
  import opened LsbPng

  // ----- reading back -----

  /** The touched positions hold the envelope's bits, in order. */
  lemma TouchedHoldEnvelope(suite: Suite, flat: Bytes, e: Envelope)
    requires Fits(flat, e)
    ensures InRange(Touched(suite, e, |flat|), |flat|)
    ensures ReadBits(Embedded(suite, flat, e).value, Touched(suite, e, |flat|)) == EnvelopeBits(e)
  {
    TouchedInRange(suite, e, |flat|);
    TouchedDistinct(suite, e, |flat|);
    ReadAfterWrite(flat, Touched(suite, e, |flat|), EnvelopeBits(e));
  }

  lemma SameReads(a: Bytes, b: Bytes, targets: seq<nat>)
    requires |a| == |b| && InRange(targets, |a|)
    requires forall p :: p in targets && p < |a| ==> Lsb(a[p]) == Lsb(b[p])
    ensures ReadBits(a, targets) == ReadBits(b, targets)
  {
    assert forall k :: 0 <= k < |targets| ==> targets[k] in targets;
  }

  /** Both regions read back what was embedded, and so does any array that agrees with the
      result in the lowest bits of the touched positions: nothing else is looked at. */
  lemma ReadsBackFromTouched(suite: Suite, flat: Bytes, e: Envelope, seen: Bytes)
    requires Fits(flat, e) && |seen| == |flat|
    requires forall p :: p in Touched(suite, e, |flat|) && p < |flat|
                         ==> Lsb(seen[p]) == Lsb(Embedded(suite, flat, e).value[p])
    ensures ReadHeaderRegion(seen) == Ok(HeaderBytes(e).value)
    ensures ReadCiphertextRegion(suite, seen, PermKey(e), |e.ciphertext|) == Ok(e.ciphertext)
  {
    var targets := Targets(suite, PermKey(e), |flat|, 8 * |e.ciphertext|);
    TouchedHoldEnvelope(suite, flat, e);
    TargetsAreFree(suite, PermKey(e), |flat|, 8 * |e.ciphertext|);
    SameReads(seen, Embedded(suite, flat, e).value, Touched(suite, e, |flat|));
    ReadBitsConcat(seen, HeaderPositions(), targets);
    assert ReadBits(seen, HeaderPositions()) == EnvelopeBits(e)[..HEADER_BITS] == BytesToBits(HeaderBytes(e).value);
    assert ReadBits(seen, targets) == EnvelopeBits(e)[HEADER_BITS..] == BytesToBits(e.ciphertext);
    PackAfterUnpack(HeaderBytes(e).value);
    PackAfterUnpack(e.ciphertext);
  }

  lemma ReadsBack(suite: Suite, flat: Bytes, e: Envelope)
    requires Fits(flat, e)
    ensures ReadHeaderRegion(Embedded(suite, flat, e).value) == Ok(HeaderBytes(e).value)
    ensures ReadCiphertextRegion(suite, Embedded(suite, flat, e).value, PermKey(e), |e.ciphertext|) == Ok(e.ciphertext)
  {
    ReadsBackFromTouched(suite, flat, e, Embedded(suite, flat, e).value);
  }

  // ----- what an embedding leaves alone -----

  /** A set of values taken from a sequence is no larger than the sequence. */
  lemma {:induction false} SetFromSeq(s: seq<nat>, values: set<nat>)
    requires forall x :: x in values ==> x in s
    ensures |values| <= |s|
  {
    if s == [] {
      assert values == {};
    } else {
      var n := |s| - 1;
      SetFromSeq(s[..n], values - {s[n]});
      assert values <= (values - {s[n]}) + {s[n]};
      assert |values| <= |(values - {s[n]}) + {s[n]}|;
    }
  }

  function Changed(before: Bytes, after: Bytes): set<nat>
    requires |before| == |after|
  {
    set p: nat | p < |before| && before[p] != after[p]
  }

  /** The upper seven bits of every channel survive, no channel outside the touched positions
      changes at all, none changes by more than one, and at most one channel per embedded bit
      changes. */
  lemma EmbeddingFrame(suite: Suite, flat: Bytes, e: Envelope)
    requires Fits(flat, e)
    ensures var out := Embedded(suite, flat, e).value;
            && (forall p :: 0 <= p < |flat| ==> out[p] / 2 == flat[p] / 2 && -1 <= out[p] as int - flat[p] as int <= 1)
            && (forall p :: 0 <= p < |flat| && p !in Touched(suite, e, |flat|) ==> out[p] == flat[p])
            && |Changed(flat, out)| <= HEADER_BITS + 8 * |e.ciphertext|
  {
    var out := Embedded(suite, flat, e).value;
    TouchedInRange(suite, e, |flat|);
    WriteBitsFrame(flat, Touched(suite, e, |flat|), EnvelopeBits(e));
    SetFromSeq(Touched(suite, e, |flat|), Changed(flat, out));
  }

  // ----- embedding again -----

  lemma TouchedPrefix(suite: Suite, first: Envelope, second: Envelope, total: nat)
    requires PermKey(first) == PermKey(second)
    requires |first.ciphertext| <= |second.ciphertext| && RoomFor(total, |second.ciphertext|)
    ensures forall p :: p in Touched(suite, first, total) ==> p in Touched(suite, second, total)
  {
    var t1, t2 := Touched(suite, first, total), Touched(suite, second, total);
    assert t1 == t2[..|t1|];
  }

  /** With the same salt and nonce and no shorter ciphertext, a second embedding leaves no trace
      of the first: the result is what embedding into the untouched carrier would have given. */
  lemma SecondEmbeddingErasesFirst(suite: Suite, flat: Bytes, first: Envelope, second: Envelope)
    requires Fits(flat, first) && Fits(flat, second)
    requires PermKey(first) == PermKey(second) && |first.ciphertext| <= |second.ciphertext|
    ensures Embedded(suite, Embedded(suite, flat, first).value, second) == Embedded(suite, flat, second)
  {
    var once := Embedded(suite, flat, first).value;
    var twice, direct := Embedded(suite, once, second).value, Embedded(suite, flat, second).value;
    var t1, t2 := Touched(suite, first, |flat|), Touched(suite, second, |flat|);
    TouchedHoldEnvelope(suite, flat, second);
    TouchedHoldEnvelope(suite, once, second);
    EmbeddingFrame(suite, flat, first);
    EmbeddingFrame(suite, once, second);
    EmbeddingFrame(suite, flat, second);
    TouchedPrefix(suite, first, second, |flat|);
    ArrayByParts(twice, direct, t2);
  }

  lemma EmbeddingIsIdempotent(suite: Suite, flat: Bytes, e: Envelope)
    requires Fits(flat, e)
    ensures Embedded(suite, Embedded(suite, flat, e).value, e) == Embedded(suite, flat, e)
  {
    SecondEmbeddingErasesFirst(suite, flat, e, e);
  }

  /** Embedding over an earlier envelope, whatever its keys and its length, succeeds just when
      embedding into the bare carrier does, and reads back the later envelope. */
  lemma ReembeddingReadsLast(suite: Suite, flat: Bytes, first: Envelope, second: Envelope)
    requires Fits(flat, first)
    ensures Embedded(suite, Embedded(suite, flat, first).value, second).Ok? == Embedded(suite, flat, second).Ok?
    ensures var r := Embedded(suite, Embedded(suite, flat, first).value, second);
            r.Ok? ==>
              && ReadHeaderRegion(r.value) == Ok(HeaderBytes(second).value)
              && ReadCiphertextRegion(suite, r.value, PermKey(second), |second.ciphertext|) == Ok(second.ciphertext)
  {
    if Fits(flat, second) {
      ReadsBack(suite, Embedded(suite, flat, first).value, second);
    }
  }

  // ----- what a read depends on -----

  /** Flipping the lowest bit of a channel. */
  function Flipped(flat: Bytes, p: nat): (r: Bytes)
    requires p < |flat|
    ensures |r| == |flat|
  {
    flat[p := SetLsb(flat[p], 1 - Lsb(flat[p]))]
  }

  /** A ciphertext read depends on the lowest bits of its own targets and on nothing else. */
  lemma ReadIsLocal(suite: Suite, a: Bytes, b: Bytes, key: Bytes, length: nat)
    requires |a| == |b| && RoomFor(|a|, length)
    requires forall k :: 0 <= k < 8 * length ==>
               var p := Targets(suite, key, |a|, 8 * length)[k];
               p < |a| && Lsb(a[p]) == Lsb(b[p])
    ensures ReadCiphertextRegion(suite, a, key, length) == ReadCiphertextRegion(suite, b, key, length)
  {
    var targets := Targets(suite, key, |a|, 8 * length);
    assert ReadBits(a, targets) == ReadBits(b, targets);
  }

  function FlipBit(bits: Bits, k: nat): (r: Bits)
    requires k < |bits|
    ensures |r| == |bits|
  {
    bits[k := 1 - bits[k]]
  }

  lemma FlippedRead(flat: Bytes, targets: seq<nat>, k: nat)
    requires InRange(targets, |flat|) && Distinct(targets) && k < |targets|
    ensures ReadBits(Flipped(flat, targets[k]), targets)
         == FlipBit(ReadBits(flat, targets), k)
  {
    assert forall j :: 0 <= j < |targets| && j != k ==> targets[j] != targets[k];
  }

  lemma FlippedHeader(flat: Bytes, p: nat)
    requires HEADER_BITS <= p < |flat|
    ensures ReadHeaderRegion(Flipped(flat, p)) == ReadHeaderRegion(flat)
  {
    assert ReadBits(Flipped(flat, p), HeaderPositions()) == ReadBits(flat, HeaderPositions());
  }

  /** The bits of a ciphertext that is read are the lowest bits of its targets. */
  lemma ReadCiphertextBits(suite: Suite, flat: Bytes, key: Bytes, length: nat)
    requires RoomFor(|flat|, length)
    ensures InRange(Targets(suite, key, |flat|, 8 * length), |flat|)
    ensures BytesToBits(ReadCiphertextRegion(suite, flat, key, length).value)
         == ReadBits(flat, Targets(suite, key, |flat|, 8 * length))
  {
    TargetsAreFree(suite, key, |flat|, 8 * length);
    UnpackAfterPackWhole(ReadBits(flat, Targets(suite, key, |flat|, 8 * length)));
  }

  /** Flipping target `k` flips bit `k` of the ciphertext that is read, and no other bit; so two
      different targets change two different bits. */
  lemma FlipReachesOneBit(suite: Suite, flat: Bytes, key: Bytes, length: nat, k: nat)
    requires RoomFor(|flat|, length) && k < 8 * length
    ensures HEADER_BITS <= Targets(suite, key, |flat|, 8 * length)[k] < |flat|
    ensures var before := ReadCiphertextRegion(suite, flat, key, length).value;
            var p := Targets(suite, key, |flat|, 8 * length)[k];
            var after := ReadCiphertextRegion(suite, Flipped(flat, p), key, length).value;
            BytesToBits(after) == FlipBit(BytesToBits(before), k)
  {
    var targets := Targets(suite, key, |flat|, 8 * length);
    TargetsAreFree(suite, key, |flat|, 8 * length);
    FlippedRead(flat, targets, k);
    ReadCiphertextBits(suite, flat, key, length);
    ReadCiphertextBits(suite, Flipped(flat, targets[k]), key, length);
  }

  /** Flipping a channel that is neither in the header nor a target changes nothing that is read. */
  lemma FlipElsewhereIsInvisible(suite: Suite, flat: Bytes, key: Bytes, length: nat, p: nat)
    requires RoomFor(|flat|, length) && HEADER_BITS <= p < |flat|
    requires p !in Targets(suite, key, |flat|, 8 * length)
    ensures ReadHeaderRegion(Flipped(flat, p)) == ReadHeaderRegion(flat)
    ensures ReadCiphertextRegion(suite, Flipped(flat, p), key, length) == ReadCiphertextRegion(suite, flat, key, length)
  {
    var targets := Targets(suite, key, |flat|, 8 * length);
    TargetsAreFree(suite, key, |flat|, 8 * length);
    assert forall k :: 0 <= k < |targets| ==> targets[k] in targets;
    ReadIsLocal(suite, Flipped(flat, p), flat, key, length);
    FlippedHeader(flat, p);
  }
}
