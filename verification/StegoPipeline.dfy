/** app/services/embed_service.py, app/steganography/extractor.py and app/steganography/verifier.py:
    encrypt and embed, extract and decrypt, and the check that needs no passphrase. */
module StegoPipeline {
  import opened Prelude
  import opened BitPacking
  import opened Envelopes
  import opened Primitives
  import opened LsbPng
  import opened LsbProofs
  import opened Capacity

  const SCRYPT_N := 0x4000
  const SCRYPT_R := 8
  const SCRYPT_P := 1

  // ----- the three operations -----

  /** The encrypted payload in its envelope, or what went wrong before there was one. */
  function Seal(suite: Suite, payload: Bytes, passphrase: string, salt: Bytes, nonce: Bytes)
    : Result<Envelope, EmbedError>
  {
    match suite.deriveKey(passphrase, salt, SCRYPT_N, SCRYPT_R, SCRYPT_P)
    case None => Err(KeyDerivationFailed)
    case Some(key) =>
      match suite.encrypt(key, nonce, payload)
      case None => Err(EncryptionFailed)
      case Some(ciphertext) =>
        Ok(Envelope(salt, nonce, ciphertext, SCRYPT_N, SCRYPT_R, SCRYPT_P, FORMAT_VERSION, KDF_SCRYPT))
  }

  /** The random salt and nonce are arguments; they have the lengths the generators produce. */
  function EmbedPayload(suite: Suite, img: Image, payload: Bytes, passphrase: string, salt: Bytes, nonce: Bytes)
    : Result<Image, EmbedError>
    requires |salt| == SALT_LEN && |nonce| == NONCE_LEN
  {
    if !FitsPayload(img, |payload|) then Err(CapacityExceeded)
    else
      match Seal(suite, payload, passphrase, salt, nonce)
      case Err(error) => Err(error)
      case Ok(e) => EmbeddedImage(suite, img, e)
  }

  datatype ExtractionError = ExtractionFailed

  /** The parsed header of an image, if it has one. */
  function HeaderOf(img: Image): Option<ParsedHeader> {
    match ReadHeaderRegion(img.channels)
    case Err(_) => None
    case Ok(data) =>
      match ParseHeader(data)
      case Err(_) => None
      case Ok(header) => Some(header)
  }

  /** The ciphertext an image declares, read in the order its header determines. */
  function DeclaredCiphertext(suite: Suite, img: Image, header: ParsedHeader): Result<Bytes, CapacityError> {
    ReadCiphertextRegion(suite, img.channels, header.salt + header.nonce, header.ciphertextLength)
  }

  /** Every failure comes out as the one extraction error. */
  function Extract(suite: Suite, img: Image, passphrase: string): Result<Bytes, ExtractionError> {
    match HeaderOf(img)
    case None => Err(ExtractionFailed)
    case Some(header) =>
      match DeclaredCiphertext(suite, img, header)
      case Err(_) => Err(ExtractionFailed)
      case Ok(ciphertext) => Opened(suite, passphrase, header, ciphertext)
  }

  /** Key derivation and decryption with the parameters of a header. */
  function Opened(suite: Suite, passphrase: string, header: ParsedHeader, ciphertext: Bytes)
    : Result<Bytes, ExtractionError>
  {
    match suite.deriveKey(passphrase, header.salt, header.kdfN, header.kdfR, header.kdfP)
    case None => Err(ExtractionFailed)
    case Some(key) =>
      match suite.decrypt(key, header.nonce, ciphertext)
      case None => Err(ExtractionFailed)
      case Some(payload) => Ok(payload)
  }

  datatype VerifyResult = VerifyResult(
    compatiblePayloadDetected: bool,
    envelopeStructureValid: bool,
    formatVersion: Option<nat>,
    algorithmVersion: Option<nat>)

  function Verify(img: Image): VerifyResult {
    match HeaderOf(img)
    case None => VerifyResult(false, false, None, None)
    case Some(header) =>
      VerifyResult(true, header.ciphertextLength <= TotalCapacityBytes(img), Some(header.version), Some(header.kdfId))
  }

  // ----- capacity -----

  predicate KeyDerives(suite: Suite, passphrase: string, salt: Bytes) {
    suite.deriveKey(passphrase, salt, SCRYPT_N, SCRYPT_R, SCRYPT_P).Some?
  }

  /** The channels an embedding of `length` payload bytes needs: header, payload and tag. */
  function ChannelsNeeded(length: nat): nat {
    8 * (HEADER_LEN + GCM_TAG_BYTES + length)
  }

  /** With a derivable key, sealing fails exactly on a payload beyond the library's bound; what it
      gives always packs. */
  lemma SealSucceedsExactlyWhen(suite: Suite, payload: Bytes, passphrase: string, salt: Bytes, nonce: Bytes)
    requires Lawful(suite)
    ensures Seal(suite, payload, passphrase, salt, nonce).Ok?
       <==> KeyDerives(suite, passphrase, salt) && |payload| <= MAX_PLAINTEXT
    ensures Seal(suite, payload, passphrase, salt, nonce).Err?
        ==> Seal(suite, payload, passphrase, salt, nonce) != Err(CapacityExceeded)
    ensures var sealed := Seal(suite, payload, passphrase, salt, nonce);
            sealed.Ok? ==> Packable(sealed.value) && |sealed.value.ciphertext| == |payload| + GCM_TAG_BYTES
  {
    if KeyDerives(suite, passphrase, salt) {
      DerivedKeyOpens(suite, passphrase, salt, SCRYPT_N, SCRYPT_R, SCRYPT_P, nonce, payload);
    }
  }

  /** Embedding succeeds exactly when the whole envelope fits bit by bit, the payload is within the
      encryption's bound, and the key can be derived. */
  lemma EmbedSucceedsExactlyWhen(
    suite: Suite, img: Image, payload: Bytes, passphrase: string, salt: Bytes, nonce: Bytes)
    requires Lawful(suite) && WellFormed(img)
    requires |salt| == SALT_LEN && |nonce| == NONCE_LEN
    ensures EmbedPayload(suite, img, payload, passphrase, salt, nonce).Ok?
       <==> && ChannelsNeeded(|payload|) <= img.width * img.height * ChannelCount(img)
            && |payload| <= MAX_PLAINTEXT
            && KeyDerives(suite, passphrase, salt)
  {
    SealSucceedsExactlyWhen(suite, payload, passphrase, salt, nonce);
    EstimateAgainstGuard(img, |payload|);
    ChannelsOfImage(img);
  }

  /** The refusal for lack of room is given exactly when there is none, except that for the empty
      payload, which the estimate always lets through, key derivation can fail first. */
  lemma RefusedForRoomExactlyWhen(
    suite: Suite, img: Image, payload: Bytes, passphrase: string, salt: Bytes, nonce: Bytes)
    requires Lawful(suite) && WellFormed(img)
    requires |salt| == SALT_LEN && |nonce| == NONCE_LEN
    ensures EmbedPayload(suite, img, payload, passphrase, salt, nonce) == Err(CapacityExceeded)
       <==> && ChannelsNeeded(|payload|) > img.width * img.height * ChannelCount(img)
            && (payload != [] || KeyDerives(suite, passphrase, salt))
  {
    SealSucceedsExactlyWhen(suite, payload, passphrase, salt, nonce);
    EstimateAgainstGuard(img, |payload|);
    ChannelsOfImage(img);
  }

  // ----- extraction undoes embedding -----

  /** The channels of `seen` and `stego` agree in the lowest bits of an envelope's positions. */
  ghost predicate SameAtTouched(suite: Suite, e: Envelope, stego: Image, seen: Image)
    requires RoomFor(|stego.channels|, |e.ciphertext|)
  {
    && |seen.channels| == |stego.channels|
    && forall p :: p in Touched(suite, e, |stego.channels|) && p < |stego.channels|
                   ==> Lsb(seen.channels[p]) == Lsb(stego.channels[p])
  }

  /** From an image holding a sealed envelope the header, the ciphertext and with them the inputs
      of key derivation and decryption come back as they were put in. */
  lemma EnvelopeComesBack(suite: Suite, img: Image, e: Envelope, seen: Image)
    requires Fits(img.channels, e) && Supported(e) && FixedLengths(e)
    requires SameAtTouched(suite, e, EmbeddedImage(suite, img, e).value, seen)
    ensures HeaderOf(seen) == Some(StoredFields(e))
    ensures DeclaredCiphertext(suite, seen, StoredFields(e)) == Ok(e.ciphertext)
  {
    ReadsBackFromTouched(suite, img.channels, e, seen.channels);
    ParseAfterPrint(e, []);
    assert HeaderBytes(e).value + [] == HeaderBytes(e).value;
  }

  /** Whatever passphrase is tried on an image with an embedded payload, it meets the very
      ciphertext, nonce, salt and cost parameters that were embedded. */
  lemma AnyPassphraseMeetsTheSealedEnvelope(
    suite: Suite, img: Image, payload: Bytes, passphrase: string, salt: Bytes, nonce: Bytes, tried: string)
    requires |salt| == SALT_LEN && |nonce| == NONCE_LEN
    requires EmbedPayload(suite, img, payload, passphrase, salt, nonce).Ok?
    ensures var stego := EmbedPayload(suite, img, payload, passphrase, salt, nonce).value;
            var ciphertext := Seal(suite, payload, passphrase, salt, nonce).value.ciphertext;
            Extract(suite, stego, tried)
            == match suite.deriveKey(tried, salt, SCRYPT_N, SCRYPT_R, SCRYPT_P)
               case None => Err(ExtractionFailed)
               case Some(other) =>
                 match suite.decrypt(other, nonce, ciphertext)
                 case None => Err(ExtractionFailed)
                 case Some(found) => Ok(found)
  {
    var e := Seal(suite, payload, passphrase, salt, nonce).value;
    EnvelopeComesBack(suite, img, e, EmbeddedImage(suite, img, e).value);
  }

  /** Whenever embedding succeeds, extracting with the same passphrase returns the payload. */
  lemma RoundTrip(suite: Suite, img: Image, payload: Bytes, passphrase: string, salt: Bytes, nonce: Bytes)
    requires Lawful(suite)
    requires |salt| == SALT_LEN && |nonce| == NONCE_LEN
    requires EmbedPayload(suite, img, payload, passphrase, salt, nonce).Ok?
    ensures Extract(suite, EmbedPayload(suite, img, payload, passphrase, salt, nonce).value, passphrase) == Ok(payload)
  {
    DerivedKeyOpens(suite, passphrase, salt, SCRYPT_N, SCRYPT_R, SCRYPT_P, nonce, payload);
    AnyPassphraseMeetsTheSealedEnvelope(suite, img, payload, passphrase, salt, nonce, passphrase);
  }

  /** The payload survives any change of the image that keeps its size and the lowest bits of the
      envelope's own positions. */
  lemma RoundTripSurvivesOtherChanges(
    suite: Suite, img: Image, payload: Bytes, passphrase: string, salt: Bytes, nonce: Bytes, seen: Image)
    requires Lawful(suite)
    requires |salt| == SALT_LEN && |nonce| == NONCE_LEN
    requires EmbedPayload(suite, img, payload, passphrase, salt, nonce).Ok?
    requires SameAtTouched(suite, Seal(suite, payload, passphrase, salt, nonce).value,
                           EmbedPayload(suite, img, payload, passphrase, salt, nonce).value, seen)
    ensures Extract(suite, seen, passphrase) == Ok(payload)
  {
    DerivedKeyOpens(suite, passphrase, salt, SCRYPT_N, SCRYPT_R, SCRYPT_P, nonce, payload);
    EnvelopeComesBack(suite, img, Seal(suite, payload, passphrase, salt, nonce).value, seen);
  }

  // ----- what extraction depends on -----

  /** The targets of the ciphertext an image declares; none when it declares more than it holds. */
  function DeclaredTargets(suite: Suite, img: Image, header: ParsedHeader): (s: seq<nat>)
    ensures |s| == if RoomFor(|img.channels|, header.ciphertextLength) then 8 * header.ciphertextLength else 0
  {
    if RoomFor(|img.channels|, header.ciphertextLength)
    then Targets(suite, header.salt + header.nonce, |img.channels|, 8 * header.ciphertextLength)
    else []
  }

  /** Two images with as many channels agree in the lowest bits of the header and, if the first
      one has a header, of the targets it declares. */
  ghost predicate SameWhereRead(suite: Suite, a: Image, b: Image) {
    && |a.channels| == |b.channels|
    && (forall p :: 0 <= p < HEADER_BITS && p < |a.channels| ==> Lsb(a.channels[p]) == Lsb(b.channels[p]))
    && (HeaderOf(a).Some? ==>
          forall p :: p in DeclaredTargets(suite, a, HeaderOf(a).value) && p < |a.channels|
                      ==> Lsb(a.channels[p]) == Lsb(b.channels[p]))
  }

  lemma SameHeader(a: Image, b: Image)
    requires |a.channels| == |b.channels|
    requires forall p :: 0 <= p < HEADER_BITS && p < |a.channels| ==> Lsb(a.channels[p]) == Lsb(b.channels[p])
    ensures HeaderOf(a) == HeaderOf(b)
  {
    if |a.channels| >= HEADER_BITS {
      SameReads(a.channels, b.channels, HeaderPositions());
    }
  }

  lemma SameDeclaredCiphertext(suite: Suite, a: Image, b: Image, header: ParsedHeader)
    requires |a.channels| == |b.channels|
    requires forall p :: p in DeclaredTargets(suite, a, header) && p < |a.channels|
                         ==> Lsb(a.channels[p]) == Lsb(b.channels[p])
    ensures DeclaredCiphertext(suite, a, header) == DeclaredCiphertext(suite, b, header)
  {
    if RoomFor(|a.channels|, header.ciphertextLength) {
      var targets := DeclaredTargets(suite, a, header);
      TargetsAreFree(suite, header.salt + header.nonce, |a.channels|, 8 * header.ciphertextLength);
      assert forall k :: 0 <= k < |targets| ==> targets[k] in targets;
      ReadIsLocal(suite, a.channels, b.channels, header.salt + header.nonce, header.ciphertextLength);
    }
  }

  /** Extraction from any image, with any passphrase, depends on the lowest bits of the header and
      of the declared targets and on nothing else: it gives the same payload or the same failure. */
  lemma ExtractIsLocal(suite: Suite, a: Image, b: Image, passphrase: string)
    requires SameWhereRead(suite, a, b)
    ensures Extract(suite, a, passphrase) == Extract(suite, b, passphrase)
  {
    SameHeader(a, b);
    if HeaderOf(a).Some? {
      SameDeclaredCiphertext(suite, a, b, HeaderOf(a).value);
    }
  }

  /** Flipping a channel that is neither in the header nor a declared target is invisible to
      extraction, and so is any change of upper bits. */
  lemma ExtractIgnoresOtherChannels(suite: Suite, img: Image, p: nat, value: byte, passphrase: string)
    requires p < |img.channels|
    requires || Lsb(value) == Lsb(img.channels[p])
             || (HEADER_BITS <= p
                 && (HeaderOf(img).Some? ==> p !in DeclaredTargets(suite, img, HeaderOf(img).value)))
    ensures Extract(suite, img.(channels := img.channels[p := value]), passphrase) == Extract(suite, img, passphrase)
  {
    ExtractIsLocal(suite, img, img.(channels := img.channels[p := value]), passphrase);
  }

  // ----- what a flipped bit does -----

  /** The image with the lowest bit of one channel flipped. */
  function FlippedImage(img: Image, p: nat): Image
    requires p < |img.channels|
  {
    img.(channels := Flipped(img.channels, p))
  }

  /** An image whose header and declared ciphertext are readable: flipping the lowest bit of one
      target leaves the header alone and flips one bit of the ciphertext. */
  lemma FlipAfterHeader(suite: Suite, img: Image, header: ParsedHeader, ciphertext: Bytes, k: nat)
    returns (received: Bytes)
    requires HeaderOf(img) == Some(header) && DeclaredCiphertext(suite, img, header) == Ok(ciphertext)
    requires k < 8 * |ciphertext|
    ensures var p := Targets(suite, header.salt + header.nonce, |img.channels|, 8 * |ciphertext|)[k];
            && p < |img.channels|
            && HeaderOf(FlippedImage(img, p)) == Some(header)
            && DeclaredCiphertext(suite, FlippedImage(img, p), header) == Ok(received)
    ensures BytesToBits(received) == FlipBit(BytesToBits(ciphertext), k)
  {
    var key, n := header.salt + header.nonce, header.ciphertextLength;
    FlipReachesOneBit(suite, img.channels, key, n, k);
    var p := Targets(suite, key, |img.channels|, 8 * n)[k];
    FlippedHeader(img.channels, p);
    received := ReadCiphertextRegion(suite, Flipped(img.channels, p), key, n).value;
  }

  /** Flipping the lowest bit of one target after embedding hands decryption, under the right
      key and nonce, a ciphertext that differs from the embedded one in exactly that bit. */
  lemma FlipReachesDecryption(
    suite: Suite, img: Image, payload: Bytes, passphrase: string, salt: Bytes, nonce: Bytes, k: nat)
    returns (received: Bytes)
    requires |salt| == SALT_LEN && |nonce| == NONCE_LEN
    requires EmbedPayload(suite, img, payload, passphrase, salt, nonce).Ok?
    requires k < 8 * |Seal(suite, payload, passphrase, salt, nonce).value.ciphertext|
    ensures var stego := EmbedPayload(suite, img, payload, passphrase, salt, nonce).value;
            var key := suite.deriveKey(passphrase, salt, SCRYPT_N, SCRYPT_R, SCRYPT_P).value;
            var sent := Seal(suite, payload, passphrase, salt, nonce).value.ciphertext;
            var p := Targets(suite, salt + nonce, |stego.channels|, 8 * |sent|)[k];
            && BytesToBits(received) == FlipBit(BytesToBits(sent), k)
            && p < |stego.channels|
            && Extract(suite, FlippedImage(stego, p), passphrase)
               == match suite.decrypt(key, nonce, received)
                  case None => Err(ExtractionFailed)
                  case Some(found) => Ok(found)
  {
    var stego := EmbedPayload(suite, img, payload, passphrase, salt, nonce).value;
    var e := Seal(suite, payload, passphrase, salt, nonce).value;
    EnvelopeComesBack(suite, img, e, stego);
    received := FlipAfterHeader(suite, stego, StoredFields(e), e.ciphertext, k);
  }

  // ----- the structural check -----

  /** The check accepts everything that can be extracted: if a header parses and its ciphertext
      can be read, both flags are set and both versions are the supported ones. */
  lemma VerifyAcceptsExtractable(suite: Suite, img: Image)
    requires WellFormed(img)
    requires HeaderOf(img).Some? && DeclaredCiphertext(suite, img, HeaderOf(img).value).Ok?
    ensures Verify(img) == VerifyResult(true, true, Some(FORMAT_VERSION), Some(KDF_SCRYPT))
  {
    ChannelsOfImage(img);
  }

  lemma VerifyAcceptsEmbedded(
    suite: Suite, img: Image, payload: Bytes, passphrase: string, salt: Bytes, nonce: Bytes)
    requires WellFormed(img)
    requires |salt| == SALT_LEN && |nonce| == NONCE_LEN
    requires EmbedPayload(suite, img, payload, passphrase, salt, nonce).Ok?
    ensures Verify(EmbedPayload(suite, img, payload, passphrase, salt, nonce).value)
         == VerifyResult(true, true, Some(FORMAT_VERSION), Some(KDF_SCRYPT))
  {
    var e := Seal(suite, payload, passphrase, salt, nonce).value;
    var stego := EmbeddedImage(suite, img, e).value;
    EnvelopeComesBack(suite, img, e, stego);
    VerifyAcceptsExtractable(suite, stego);
  }

  /** The converse fails, because the check compares with the whole image and reading with what
      is left after the header. It fails exactly for these declared lengths. */
  lemma VerifyAcceptsUnreadableExactlyWhen(suite: Suite, img: Image, header: ParsedHeader)
    requires WellFormed(img) && HeaderOf(img) == Some(header)
    ensures Verify(img).envelopeStructureValid && DeclaredCiphertext(suite, img, header).Err?
       <==> |img.channels| - HEADER_BITS < 8 * header.ciphertextLength <= |img.channels|
  {
    ChannelsOfImage(img);
  }

  /** The converse of acceptance does fail: in every size of image that can hold a header at all,
      some image passes the check and cannot be extracted from with any passphrase. */
  lemma AcceptedButUnreadable(suite: Suite, img: Image, salt: Bytes, nonce: Bytes) returns (example: Image)
    requires WellFormed(img) && HEADER_BITS <= |img.channels| < 0x8_0000_0000
    requires |salt| == SALT_LEN && |nonce| == NONCE_LEN
    ensures example.width == img.width && example.height == img.height && example.mode == img.mode
    ensures WellFormed(example)
    ensures Verify(example) == VerifyResult(true, true, Some(FORMAT_VERSION), Some(KDF_SCRYPT))
    ensures forall passphrase :: Extract(suite, example, passphrase) == Err(ExtractionFailed)
  {
    var claimed := seq(|img.channels| / 8, _ => 0 as byte);
    var e := Envelope(salt, nonce, claimed, SCRYPT_N, SCRYPT_R, SCRYPT_P, FORMAT_VERSION, KDF_SCRYPT);
    var header := HeaderBytes(e).value;
    example := img.(channels := WriteBits(img.channels, HeaderPositions(), BytesToBits(header)));
    ReadAfterWrite(img.channels, HeaderPositions(), BytesToBits(header));
    PackAfterUnpack(header);
    ParseAfterPrint(e, []);
    assert header + [] == header;
    VerifyAcceptsUnreadableExactlyWhen(suite, example, StoredFields(e));
  }
}
