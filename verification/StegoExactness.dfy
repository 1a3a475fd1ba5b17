/** What images carry, channel by channel, and what extraction, embedding and the structural check
    make of any image whatever. */
module StegoExactness {
  import opened Prelude
  import opened BitPacking
  import opened Envelopes
  import opened Primitives
  import opened PixelPermutation
  import opened LsbPng
  import opened LsbProofs
  import opened Capacity
  import opened StegoPipeline

  // ----- carrying an envelope -----

  /** An envelope whose fields the header format holds and the parser supports. */
  predicate WellMade(e: Envelope) {
    Packable(e) && e.version == 1 && e.kdfId == 1 && |e.salt| == 16 && |e.nonce| == 12
  }

  /** The lowest bits of the first 368 channels, in their order, are the header's bits. */
  predicate HoldsHeader(flat: Bytes, e: Envelope)
    requires Packable(e)
  {
    && 368 <= |flat|
    && forall i :: 0 <= i < 368 ==> flat[i] % 2 == BytesToBits(HeaderBytes(e).value)[i]
  }

  function AfterHeader(total: nat): (s: seq<nat>)
    requires total >= 368
    ensures |s| == total - 368
  {
    seq(total - 368, i requires 0 <= i => 368 + i)
  }

  /** The order of the channels after the header under the envelope's salt and nonce. */
  function CipherOrder(suite: Suite, e: Envelope, total: nat): (order: seq<nat>)
    requires total >= 368
    ensures |order| == total - 368
  {
    Permuted(suite, e.salt + e.nonce, AfterHeader(total))
  }

  /** The lowest bits of the channels hold the envelope: the header in front, then the ciphertext
      in the keyed order. */
  ghost predicate Carries(suite: Suite, flat: Bytes, e: Envelope)
    requires Packable(e)
  {
    && HoldsHeader(flat, e)
    && 368 + 8 * |e.ciphertext| <= |flat|
    && forall k :: 0 <= k < 8 * |e.ciphertext| ==>
         var p := CipherOrder(suite, e, |flat|)[k];
         p < |flat| && flat[p] % 2 == BytesToBits(e.ciphertext)[k]
  }

  /** The targets are the first positions of that order. */
  lemma TargetsInOrder(suite: Suite, e: Envelope, total: nat, n: nat)
    requires 368 + n <= total
    ensures Targets(suite, PermKey(e), total, n) == CipherOrder(suite, e, total)[..n]
  {
    assert Remaining(total) == AfterHeader(total);
  }

  lemma EmbeddedHeaderIsHeld(suite: Suite, flat: Bytes, e: Envelope)
    requires Fits(flat, e)
    ensures HoldsHeader(Embedded(suite, flat, e).value, e)
  {
    var out, touched := Embedded(suite, flat, e).value, Touched(suite, e, |flat|);
    TouchedHoldEnvelope(suite, flat, e);
    forall i | 0 <= i < 368
      ensures out[i] % 2 == BytesToBits(HeaderBytes(e).value)[i]
    {
      assert touched[i] == i;
      assert ReadBits(out, touched)[i] == EnvelopeBits(e)[i];
    }
  }

  lemma EmbeddedCiphertextIsHeld(suite: Suite, flat: Bytes, e: Envelope, k: nat)
    requires Fits(flat, e) && k < 8 * |e.ciphertext|
    ensures var p := CipherOrder(suite, e, |flat|)[k];
            p < |flat| && Embedded(suite, flat, e).value[p] % 2 == BytesToBits(e.ciphertext)[k]
  {
    TouchedHoldEnvelope(suite, flat, e);
    TouchedAt(suite, e, |flat|, k);
    EnvelopeBitAt(e, k);
    assert ReadBits(Embedded(suite, flat, e).value, Touched(suite, e, |flat|))[368 + k] == EnvelopeBits(e)[368 + k];
  }

  lemma TouchedAt(suite: Suite, e: Envelope, total: nat, k: nat)
    requires RoomFor(total, |e.ciphertext|) && k < 8 * |e.ciphertext|
    ensures Touched(suite, e, total)[368 + k] == CipherOrder(suite, e, total)[k]
  {
    TargetsInOrder(suite, e, total, 8 * |e.ciphertext|);
  }

  lemma EnvelopeBitAt(e: Envelope, k: nat)
    requires Packable(e) && k < 8 * |e.ciphertext|
    ensures EnvelopeBits(e)[368 + k] == BytesToBits(e.ciphertext)[k]
  {
  }

  /** Every channel after an embedding: in the header and at the targets the upper seven bits with
      the envelope's bit below, anywhere else the channel itself. */
  lemma EmbeddedChannelByChannel(suite: Suite, flat: Bytes, e: Envelope)
    requires Packable(e) && 368 + 8 * |e.ciphertext| <= |flat|
    ensures var r := Embedded(suite, flat, e);
            && r.Ok? && |r.value| == |flat| && Carries(suite, r.value, e)
            && (forall p :: 0 <= p < |flat| ==> r.value[p] / 2 == flat[p] / 2)
            && (forall p :: 368 <= p < |flat| && p !in CipherOrder(suite, e, |flat|)[..8 * |e.ciphertext|]
                            ==> r.value[p] == flat[p])
  {
    EmbeddedHeaderIsHeld(suite, flat, e);
    forall k | 0 <= k < 8 * |e.ciphertext|
      ensures var p := CipherOrder(suite, e, |flat|)[k];
              p < |flat| && Embedded(suite, flat, e).value[p] % 2 == BytesToBits(e.ciphertext)[k]
    {
      EmbeddedCiphertextIsHeld(suite, flat, e, k);
    }
    EmbeddingFrame(suite, flat, e);
    TargetsInOrder(suite, e, |flat|, 8 * |e.ciphertext|);
  }

  // ----- headers -----

  /** A held header is understood as the envelope's fields. */
  lemma HeldHeaderIsUnderstood(img: Image, e: Envelope)
    requires WellMade(e) && HoldsHeader(img.channels, e)
    ensures HeaderOf(img) == Some(StoredFields(e))
  {
    var header := HeaderBytes(e).value;
    assert ReadBits(img.channels, HeaderPositions()) == BytesToBits(header);
    PackAfterUnpack(header);
    ParseAfterPrint(e, []);
    assert header + [] == header;
  }

  /** A header that is understood is held: its fields, with any ciphertext of the declared length,
      make up an envelope whose header the image holds. */
  lemma UnderstoodHeaderIsHeld(img: Image, header: ParsedHeader, ciphertext: Bytes)
    requires HeaderOf(img) == Some(header) && |ciphertext| == header.ciphertextLength
    ensures WellMade(Reassembled(header, ciphertext))
    ensures HoldsHeader(img.channels, Reassembled(header, ciphertext))
    ensures StoredFields(Reassembled(header, ciphertext)) == header
  {
    var bits := ReadBits(img.channels, HeaderPositions());
    var data := BitsToBytes(bits);
    PrintAfterParse(data, ciphertext);
    assert data[..HEADER_LEN] == data;
    UnpackAfterPackWhole(bits);
    forall i | 0 <= i < 368
      ensures img.channels[i] % 2 == BytesToBits(data)[i]
    {
      assert HeaderPositions()[i] == i && bits[i] == Lsb(img.channels[i]);
    }
  }

  // ----- the structural check on every image -----

  /** On an image that holds a header the check reports a payload, both versions as 1, and the
      structure valid exactly when the declared bits are no more than the image's channels. */
  lemma VerifyWithHeader(img: Image, e: Envelope)
    requires WellFormed(img) && WellMade(e) && HoldsHeader(img.channels, e)
    ensures Verify(img) == VerifyResult(true, 8 * |e.ciphertext| <= |img.channels|, Some(1), Some(1))
  {
    HeldHeaderIsUnderstood(img, e);
    ChannelsOfImage(img);
  }

  /** The check detects a payload exactly in the images that hold the header of some envelope, and
      on any other image reports nothing. */
  lemma VerifyDetectsExactlyWhen(img: Image)
    ensures Verify(img).compatiblePayloadDetected <==> exists e :: WellMade(e) && HoldsHeader(img.channels, e)
    ensures !Verify(img).compatiblePayloadDetected ==> Verify(img) == VerifyResult(false, false, None, None)
  {
    if e :| WellMade(e) && HoldsHeader(img.channels, e) {
      HeldHeaderIsUnderstood(img, e);
    }
    if HeaderOf(img).Some? {
      var header := HeaderOf(img).value;
      DeclaredLengthIsBounded(img);
      UnderstoodHeaderIsHeld(img, header, seq(header.ciphertextLength, _ => 0 as byte));
    }
  }

  lemma DeclaredLengthIsBounded(img: Image)
    requires HeaderOf(img).Some?
    ensures HeaderOf(img).value.ciphertextLength < 0x1_0000_0000
  {
    var data := BitsToBytes(ReadBits(img.channels, HeaderPositions()));
    Uint32RoundTrip(0, data[42..46]);
  }

  /** Nothing is found in an image whose second lowest bit is not that of the magic string, as in a
      clean image of zeros. */
  lemma CleanImageHasNothing(suite: Suite, img: Image, passphrase: string)
    requires |img.channels| > 1 ==> img.channels[1] % 2 == 0
    ensures Verify(img) == VerifyResult(false, false, None, None)
    ensures Extract(suite, img, passphrase) == Err(ExtractionFailed)
  {
    VerifyDetectsExactlyWhen(img);
    forall e | WellMade(e)
      ensures !HoldsHeader(img.channels, e)
    {
      PrintedByteForByte(e);
      ShiftedOctet(0x53, 0, 1, 0, 1, 0, 0, 1, 1);
      assert BytesToBits(HeaderBytes(e).value)[1] == BitOf(HeaderBytes(e).value[0], 1) == 1;
    }
  }

  // ----- extraction from every image -----

  /** What is carried is read. */
  lemma CarriedIsRead(suite: Suite, img: Image, e: Envelope)
    requires WellMade(e) && Carries(suite, img.channels, e)
    ensures HeaderOf(img) == Some(StoredFields(e))
    ensures DeclaredCiphertext(suite, img, StoredFields(e)) == Ok(e.ciphertext)
  {
    var n := 8 * |e.ciphertext|;
    HeldHeaderIsUnderstood(img, e);
    TargetsInOrder(suite, e, |img.channels|, n);
    TargetsAreFree(suite, PermKey(e), |img.channels|, n);
    assert ReadBits(img.channels, Targets(suite, PermKey(e), |img.channels|, n)) == BytesToBits(e.ciphertext);
    PackAfterUnpack(e.ciphertext);
  }

  /** What is read is carried. */
  lemma ReadIsCarried(suite: Suite, img: Image, header: ParsedHeader, ciphertext: Bytes)
    requires HeaderOf(img) == Some(header) && DeclaredCiphertext(suite, img, header) == Ok(ciphertext)
    ensures WellMade(Reassembled(header, ciphertext))
    ensures Carries(suite, img.channels, Reassembled(header, ciphertext))
    ensures StoredFields(Reassembled(header, ciphertext)) == header
  {
    var e, n := Reassembled(header, ciphertext), 8 * |ciphertext|;
    UnderstoodHeaderIsHeld(img, header, ciphertext);
    TargetsInOrder(suite, e, |img.channels|, n);
    TargetsAreFree(suite, PermKey(e), |img.channels|, n);
    ReadCiphertextBits(suite, img.channels, PermKey(e), |ciphertext|);
    var targets := Targets(suite, PermKey(e), |img.channels|, n);
    forall k | 0 <= k < n
      ensures var p := CipherOrder(suite, e, |img.channels|)[k];
              p < |img.channels| && img.channels[p] % 2 == BytesToBits(ciphertext)[k]
    {
      assert targets[k] == CipherOrder(suite, e, |img.channels|)[k];
      assert ReadBits(img.channels, targets)[k] == BytesToBits(ciphertext)[k];
    }
  }

  /** An image carries at most one envelope. */
  lemma CarriedIsUnique(suite: Suite, img: Image, e: Envelope, f: Envelope)
    requires WellMade(e) && Carries(suite, img.channels, e)
    requires WellMade(f) && Carries(suite, img.channels, f)
    ensures e == f
  {
    CarriedIsRead(suite, img, e);
    CarriedIsRead(suite, img, f);
  }

  /** The passphrase opens the envelope: the key derived with the envelope's own salt and costs
      decrypts its ciphertext to the payload. */
  predicate Opens(suite: Suite, passphrase: string, e: Envelope, payload: Bytes)
    requires Packable(e)
  {
    var key := suite.deriveKey(passphrase, e.salt, e.kdfN, e.kdfR, e.kdfP);
    key.Some? && suite.decrypt(key.value, e.nonce, e.ciphertext) == Some(payload)
  }

  /** From any image, with any passphrase: extraction returns a payload exactly when the image
      carries an envelope that the passphrase opens to it; otherwise it fails with its one error. */
  lemma ExtractsExactlyWhen(suite: Suite, img: Image, passphrase: string, payload: Bytes)
    ensures Extract(suite, img, passphrase) == Ok(payload)
       <==> exists e :: WellMade(e) && Carries(suite, img.channels, e) && Opens(suite, passphrase, e, payload)
    ensures Extract(suite, img, passphrase).Err? ==> Extract(suite, img, passphrase) == Err(ExtractionFailed)
  {
    if e :| WellMade(e) && Carries(suite, img.channels, e) && Opens(suite, passphrase, e, payload) {
      CarriedIsRead(suite, img, e);
    }
    if Extract(suite, img, passphrase) == Ok(payload) {
      var header := HeaderOf(img).value;
      var ciphertext := DeclaredCiphertext(suite, img, header).value;
      ReadIsCarried(suite, img, header, ciphertext);
      assert Opens(suite, passphrase, Reassembled(header, ciphertext), payload);
    }
  }

  // ----- the embedded image -----

  /** The picture survives: size and transparency stay, the array still fits them, and it is no
      other image in its upper seven bits. */
  lemma EmbeddingKeepsPicture(suite: Suite, img: Image, e: Envelope)
    requires WellFormed(img) && EmbeddedImage(suite, img, e).Ok?
    ensures var out := EmbeddedImage(suite, img, e).value;
            && out.width == img.width && out.height == img.height
            && out.mode != OtherMode && (out.mode == RGBA <==> img.mode == RGBA)
            && WellFormed(out)
            && |out.channels| == |img.channels|
            && forall p :: 0 <= p < |img.channels| ==> out.channels[p] / 2 == img.channels[p] / 2
  {
    EmbeddingFrame(suite, img.channels, e);
  }

  predicate InPicture(img: Image, x: nat, y: nat, c: nat) {
    x < img.width && y < img.height && c < if img.mode == RGBA then 4 else 3
  }

  /** Where channel `c` of the pixel in column `x` and row `y` lies. */
  function IndexOf(img: Image, x: nat, y: nat, c: nat): nat {
    (y * img.width + x) * (if img.mode == RGBA then 4 else 3) + c
  }

  lemma IndexIsInRange(img: Image, x: nat, y: nat, c: nat)
    requires WellFormed(img) && InPicture(img, x, y, c)
    ensures IndexOf(img, x, y, c) < |img.channels|
  {
    var pixels := img.width * img.height;
    assert y * img.width + img.width == (y + 1) * img.width <= img.height * img.width;
    assert y * img.width + x + 1 <= pixels;
    assert |img.channels| == if img.mode == RGBA then pixels * 4 else pixels * 3;
  }

  function ChannelAt(img: Image, x: nat, y: nat, c: nat): byte
    requires WellFormed(img) && InPicture(img, x, y, c)
  {
    IndexIsInRange(img, x, y, c);
    img.channels[IndexOf(img, x, y, c)]
  }

  /** Each channel of each pixel, located in each image by its own size, keeps its upper seven bits. */
  lemma EmbeddingKeepsPixels(suite: Suite, img: Image, e: Envelope, x: nat, y: nat, c: nat)
    requires WellFormed(img) && EmbeddedImage(suite, img, e).Ok? && InPicture(img, x, y, c)
    ensures var out := EmbeddedImage(suite, img, e).value;
            WellFormed(out) && InPicture(out, x, y, c) && ChannelAt(out, x, y, c) / 2 == ChannelAt(img, x, y, c) / 2
  {
    EmbeddingKeepsPicture(suite, img, e);
    IndexIsInRange(img, x, y, c);
  }

  /** A successful embedding leaves an image that carries the sealed payload: AES-GCM of the payload
      under the key that scrypt derives with n = 16384, r = 8, p = 1, in an envelope of version 1. */
  lemma EmbedPayloadCarries(
    suite: Suite, img: Image, payload: Bytes, passphrase: string, salt: Bytes, nonce: Bytes)
    requires |salt| == SALT_LEN && |nonce| == NONCE_LEN
    requires EmbedPayload(suite, img, payload, passphrase, salt, nonce).Ok?
    ensures var key := suite.deriveKey(passphrase, salt, 16384, 8, 1);
            && key.Some? && suite.encrypt(key.value, nonce, payload).Some?
            && var e := Envelope(salt, nonce, suite.encrypt(key.value, nonce, payload).value, 16384, 8, 1, 1, 1);
               && WellMade(e)
               && Carries(suite, EmbedPayload(suite, img, payload, passphrase, salt, nonce).value.channels, e)
  {
    EmbeddedChannelByChannel(suite, img.channels, Seal(suite, payload, passphrase, salt, nonce).value);
  }
}
