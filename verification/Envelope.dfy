/** app/crypto/envelope.py: the 46-byte header and its parser. */
module Envelopes {
  import opened Prelude
  import opened BitPacking

  const MAGIC: Bytes := [0x53, 0x54, 0x47, 0x31]  // "STG1"
  const FORMAT_VERSION := 1
  const KDF_SCRYPT := 1
  const HEADER_LEN := 46
  const SALT_LEN := 16
  const NONCE_LEN := 12

  /** The fields are plain Python values: nothing bounds the numbers or fixes the lengths
      before the header is packed. */
  datatype Envelope = Envelope(
    salt: Bytes,
    nonce: Bytes,
    ciphertext: Bytes,
    kdfN: int,
    kdfR: int,
    kdfP: int,
    version: int,
    kdfId: int)

  datatype ParsedHeader = ParsedHeader(
    salt: Bytes,
    nonce: Bytes,
    ciphertextLength: nat,
    kdfN: nat,
    kdfR: nat,
    kdfP: nat,
    version: nat,
    kdfId: nat)

  datatype PackError = StructError

  datatype EnvelopeError = Truncated | BadMagic | UnsupportedVersion | UnsupportedKdf

  /** Every number fits its struct code (B, B, I, H, H and I); otherwise packing raises. */
  predicate Packable(e: Envelope) {
    && 0 <= e.version < 0x100
    && 0 <= e.kdfId < 0x100
    && 0 <= e.kdfN < 0x1_0000_0000
    && 0 <= e.kdfR < 0x1_0000
    && 0 <= e.kdfP < 0x1_0000
    && |e.ciphertext| < 0x1_0000_0000
  }

  /** The lengths the header reserves for the salt and the nonce. */
  predicate FixedLengths(e: Envelope) {
    |e.salt| == SALT_LEN && |e.nonce| == NONCE_LEN
  }

  predicate Supported(e: Envelope) {
    e.version == FORMAT_VERSION && e.kdfId == KDF_SCRYPT
  }

  /** struct's `<width>s` code: a longer string is cut, a shorter one padded with zero bytes. */
  function FixedField(s: Bytes, width: nat): (f: Bytes)
    ensures |f| == width
    ensures f == s <==> |s| == width
  {
    if |s| >= width then s[..width] else s + seq(width - |s|, _ => 0)
  }

  /** The codes of the header's struct format and the values packed with them. */
  datatype Field = U8(n: nat) | U16(n: nat) | U32(n: nat) | Str(s: Bytes, width: nat)

  predicate FieldInRange(f: Field) {
    match f
    case U8(n) => n < 0x100
    case U16(n) => n < 0x1_0000
    case U32(n) => n < 0x1_0000_0000
    case Str(_, _) => true
  }

  function Packed(f: Field): Bytes
    requires FieldInRange(f)
  {
    match f
    case U8(n) => Uint8(n)
    case U16(n) => Uint16(n)
    case U32(n) => Uint32(n)
    case Str(s, width) => FixedField(s, width)
  }

  /** The fields one after the other, without gaps. */
  function PackedAll(fields: seq<Field>): Bytes
    requires forall f :: f in fields ==> FieldInRange(f)
  {
    if fields == [] then [] else Packed(fields[0]) + PackedAll(fields[1..])
  }

  function HeaderFields(e: Envelope): (fields: seq<Field>)
    requires Packable(e)
    ensures forall f :: f in fields ==> FieldInRange(f)
  {
    [Str(MAGIC, 4), U8(e.version), U8(e.kdfId), U32(e.kdfN), U16(e.kdfR), U16(e.kdfP),
     Str(e.salt, SALT_LEN), Str(e.nonce, NONCE_LEN), U32(|e.ciphertext|)]
  }

  function HeaderBytes(e: Envelope): (r: Result<Bytes, PackError>)
    ensures r.Ok? <==> Packable(e)
    ensures r.Ok? ==> |r.value| == HEADER_LEN
  {
    if Packable(e) then
      PackedHeader(e);
      Ok(PackedAll(HeaderFields(e)))
    else
      Err(StructError)
  }

  /** The header is its nine fields in order, and 46 bytes long. */
  lemma PackedHeader(e: Envelope)
    requires Packable(e)
    ensures PackedAll(HeaderFields(e))
         == (FixedField(MAGIC, 4) + Uint8(e.version) + Uint8(e.kdfId))
            + ((Uint32(e.kdfN) + Uint16(e.kdfR) + Uint16(e.kdfP))
               + (FixedField(e.salt, SALT_LEN) + FixedField(e.nonce, NONCE_LEN) + Uint32(|e.ciphertext|)))
    ensures |PackedAll(HeaderFields(e))| == HEADER_LEN
  {
    var first := [Str(MAGIC, 4), U8(e.version), U8(e.kdfId)];
    var second := [U32(e.kdfN), U16(e.kdfR), U16(e.kdfP)];
    var third := [Str(e.salt, SALT_LEN), Str(e.nonce, NONCE_LEN), U32(|e.ciphertext|)];
    assert HeaderFields(e) == first + (second + third);
    PackedConcat(first, second + third);
    PackedConcat(second, third);
    PackedThree(Str(MAGIC, 4), U8(e.version), U8(e.kdfId));
    PackedThree(U32(e.kdfN), U16(e.kdfR), U16(e.kdfP));
    PackedThree(Str(e.salt, SALT_LEN), Str(e.nonce, NONCE_LEN), U32(|e.ciphertext|));
  }

  lemma {:induction false} PackedConcat(a: seq<Field>, b: seq<Field>)
    requires forall f :: f in a || f in b ==> FieldInRange(f)
    ensures PackedAll(a + b) == PackedAll(a) + PackedAll(b)
  {
    if a == [] {
      assert a + b == b;
    } else {
      assert (a + b)[1..] == a[1..] + b;
      PackedConcat(a[1..], b);
    }
  }

  lemma PackedThree(f: Field, g: Field, h: Field)
    requires FieldInRange(f) && FieldInRange(g) && FieldInRange(h)
    ensures PackedAll([f, g, h]) == Packed(f) + Packed(g) + Packed(h)
  {
    assert [h][1..] == [] && PackedAll([h]) == Packed(h);
    assert [g, h][1..] == [h] && PackedAll([g, h]) == Packed(g) + PackedAll([h]);
    assert [f, g, h][1..] == [g, h] && PackedAll([f, g, h]) == Packed(f) + PackedAll([g, h]);
  }

  function Serialize(e: Envelope): Result<Bytes, PackError> {
    match HeaderBytes(e)
    case Ok(header) => Ok(header + e.ciphertext)
    case Err(error) => Err(error)
  }

  function ParseHeader(data: Bytes): (r: Result<ParsedHeader, EnvelopeError>)
    ensures r.Ok? ==> |r.value.salt| == SALT_LEN && |r.value.nonce| == NONCE_LEN
  {
    if |data| < HEADER_LEN then Err(Truncated)
    else if data[..4] != MAGIC then Err(BadMagic)
    else if FromBigEndian(data[4..5]) != FORMAT_VERSION then Err(UnsupportedVersion)
    else if FromBigEndian(data[5..6]) != KDF_SCRYPT then Err(UnsupportedKdf)
    else
      Ok(ParsedHeader(
           data[14..30],
           data[30..42],
           FromBigEndian(data[42..46]),
           FromBigEndian(data[6..10]),
           FromBigEndian(data[10..12]),
           FromBigEndian(data[12..14]),
           FromBigEndian(data[4..5]),
           FromBigEndian(data[5..6])))
  }

  // ----- printing, then parsing -----

  /** What the parser makes of a printed header: the fields as the layout stores them. */
  function StoredFields(e: Envelope): ParsedHeader
    requires Packable(e)
  {
    ParsedHeader(FixedField(e.salt, SALT_LEN), FixedField(e.nonce, NONCE_LEN), |e.ciphertext|,
                 e.kdfN, e.kdfR, e.kdfP, e.version, e.kdfId)
  }

  /** Where each field of a printed header lies, whatever follows the header. */
  lemma HeaderLayout(e: Envelope, suffix: Bytes)
    requires Packable(e)
    ensures var data := HeaderBytes(e).value + suffix;
            && |data| == HEADER_LEN + |suffix|
            && data[..4] == MAGIC
            && data[4..5] == Uint8(e.version)
            && data[5..6] == Uint8(e.kdfId)
            && data[6..10] == Uint32(e.kdfN)
            && data[10..12] == Uint16(e.kdfR)
            && data[12..14] == Uint16(e.kdfP)
            && data[14..30] == FixedField(e.salt, SALT_LEN)
            && data[30..42] == FixedField(e.nonce, NONCE_LEN)
            && data[42..46] == Uint32(|e.ciphertext|)
  {
    var data := HeaderBytes(e).value + suffix;
    HeaderGroups(e, suffix);
    ThreeParts(FixedField(MAGIC, 4), Uint8(e.version), Uint8(e.kdfId));
    ThreeParts(Uint32(e.kdfN), Uint16(e.kdfR), Uint16(e.kdfP));
    ThreeParts(FixedField(e.salt, SALT_LEN), FixedField(e.nonce, NONCE_LEN), Uint32(|e.ciphertext|));
    SliceOfSlice(data, 0, 6, 0, 4);
    SliceOfSlice(data, 0, 6, 4, 5);
    SliceOfSlice(data, 0, 6, 5, 6);
    SliceOfSlice(data, 6, 14, 0, 4);
    SliceOfSlice(data, 6, 14, 4, 6);
    SliceOfSlice(data, 6, 14, 6, 8);
    SliceOfSlice(data, 14, 46, 0, 16);
    SliceOfSlice(data, 14, 46, 16, 28);
    SliceOfSlice(data, 14, 46, 28, 32);
  }

  /** The three groups of three fields that make up a printed header. */
  lemma HeaderGroups(e: Envelope, suffix: Bytes)
    requires Packable(e)
    ensures var data := HeaderBytes(e).value + suffix;
            && data[0..6] == FixedField(MAGIC, 4) + Uint8(e.version) + Uint8(e.kdfId)
            && data[6..14] == Uint32(e.kdfN) + Uint16(e.kdfR) + Uint16(e.kdfP)
            && data[14..46] == FixedField(e.salt, SALT_LEN) + FixedField(e.nonce, NONCE_LEN) + Uint32(|e.ciphertext|)
  {
    var first := FixedField(MAGIC, 4) + Uint8(e.version) + Uint8(e.kdfId);
    var second := Uint32(e.kdfN) + Uint16(e.kdfR) + Uint16(e.kdfP);
    var third := FixedField(e.salt, SALT_LEN) + FixedField(e.nonce, NONCE_LEN) + Uint32(|e.ciphertext|);
    PackedHeader(e);
    ThreeParts(first, second, third + suffix);
    assert HeaderBytes(e).value + suffix == first + second + (third + suffix);
    assert (third + suffix)[..32] == third;
    SliceOfSlice(HeaderBytes(e).value + suffix, 14, 46 + |suffix|, 0, 32);
  }

  lemma SliceOfSlice(s: Bytes, lo: nat, hi: nat, from: nat, to: nat)
    requires lo <= hi <= |s| && from <= to <= hi - lo
    ensures s[lo..hi][from..to] == s[lo + from..lo + to]
  {
    var part, whole := s[lo..hi][from..to], s[lo + from..lo + to];
    assert forall k :: 0 <= k < |part| ==> part[k] == whole[k];
  }

  lemma ThreeParts(a: Bytes, b: Bytes, c: Bytes)
    ensures var s := a + b + c;
            && s[..|a|] == a && s[|a|..|a| + |b|] == b && s[|a| + |b|..] == c
  {
  }

  /** Parsing a printed header, with anything after it, gives exactly the stored fields when
      the version and the KDF are the supported ones, and the matching error when not. */
  lemma ParseAfterPrint(e: Envelope, suffix: Bytes)
    requires Packable(e)
    ensures ParseHeader(HeaderBytes(e).value + suffix)
         == if e.version != FORMAT_VERSION then Err(UnsupportedVersion)
            else if e.kdfId != KDF_SCRYPT then Err(UnsupportedKdf)
            else Ok(StoredFields(e))
  {
    HeaderLayout(e, suffix);
    Uint8RoundTrip(e.version, [0]);
    Uint8RoundTrip(e.kdfId, [0]);
    Uint32RoundTrip(e.kdfN, [0, 0, 0, 0]);
    Uint16RoundTrip(e.kdfR, [0, 0]);
    Uint16RoundTrip(e.kdfP, [0, 0]);
    Uint32RoundTrip(|e.ciphertext|, [0, 0, 0, 0]);
  }

  /** Printing is not faithful for every envelope: it comes back field for field exactly when
      its salt and its nonce have the lengths the header reserves for them. */
  lemma FieldsComeBackExactly(e: Envelope)
    requires Packable(e) && Supported(e)
    ensures (ParseHeader(Serialize(e).value)
             == Ok(ParsedHeader(e.salt, e.nonce, |e.ciphertext|, e.kdfN, e.kdfR, e.kdfP, e.version, e.kdfId)))
            <==> FixedLengths(e)
  {
    ParseAfterPrint(e, e.ciphertext);
  }

  /** A salt of the wrong length is not refused: it is cut or padded without an error. */
  lemma ShortSaltIsPadded(e: Envelope)
    requires Packable(e) && Supported(e) && e.salt == [7]
    ensures ParseHeader(Serialize(e).value).Ok?
    ensures ParseHeader(Serialize(e).value).value.salt == e.salt + Zeros(15)
  {
    ParseAfterPrint(e, e.ciphertext);
  }

  // ----- parsing, then printing -----

  /** Any ciphertext of the declared length completes a parsed header to an envelope. */
  function Reassembled(h: ParsedHeader, ciphertext: Bytes): Envelope {
    Envelope(h.salt, h.nonce, ciphertext, h.kdfN, h.kdfR, h.kdfP, h.version, h.kdfId)
  }

  /** Whatever parses is a header that printing gives back: no two headers parse alike. */
  lemma PrintAfterParse(data: Bytes, ciphertext: Bytes)
    requires ParseHeader(data).Ok?
    requires |ciphertext| == ParseHeader(data).value.ciphertextLength
    ensures HeaderBytes(Reassembled(ParseHeader(data).value, ciphertext)) == Ok(data[..HEADER_LEN])
  {
    Uint8RoundTrip(0, data[4..5]);
    Uint8RoundTrip(0, data[5..6]);
    Uint32RoundTrip(0, data[6..10]);
    Uint16RoundTrip(0, data[10..12]);
    Uint16RoundTrip(0, data[12..14]);
    Uint32RoundTrip(0, data[42..46]);
    assert data[..HEADER_LEN]
        == (data[..4] + data[4..5] + data[5..6])
           + ((data[6..10] + data[10..12] + data[12..14]) + (data[14..30] + data[30..42] + data[42..46]));
    PackedHeader(Reassembled(ParseHeader(data).value, ciphertext));
  }

  // ----- the wire format in bytes -----

  lemma FixedFieldBytes(s: Bytes, width: nat, k: nat)
    requires k < width
    ensures FixedField(s, width)[k] == if k < |s| then s[k] else 0
  {
  }

  /** The two-byte and the four-byte number at an offset, most significant byte first. */
  function Short(data: Bytes, at: nat): nat
    requires at + 2 <= |data|
  {
    0x100 * data[at] as int + data[at + 1] as int
  }

  function Word(data: Bytes, at: nat): nat
    requires at + 4 <= |data|
  {
    0x1_0000 * Short(data, at) + Short(data, at + 2)
  }

  /** "STG1" in ASCII. */
  predicate StartsWithMagic(data: Bytes) {
    |data| >= 4 && data[0] == 0x53 && data[1] == 0x54 && data[2] == 0x47 && data[3] == 0x31
  }

  /** What the parser answers, for every byte string, in terms of its bytes: which of the four
      errors, or the fields at their offsets. */
  lemma ParsedByteForByte(data: Bytes)
    ensures ParseHeader(data)
         == if |data| < 46 then Err(Truncated)
            else if !StartsWithMagic(data) then Err(BadMagic)
            else if data[4] != 1 then Err(UnsupportedVersion)
            else if data[5] != 1 then Err(UnsupportedKdf)
            else Ok(ParsedHeader(data[14..30], data[30..42], Word(data, 42),
                                 Word(data, 6), Short(data, 10), Short(data, 12), 1, 1))
  {
    if |data| >= 46 {
      assert data[..4] == MAGIC <==> StartsWithMagic(data);
      OneByte(data[4..5]);
      OneByte(data[5..6]);
      FourBytes(data[6..10]);
      TwoBytes(data[10..12]);
      TwoBytes(data[12..14]);
      FourBytes(data[42..46]);
    }
  }

  /** The printed header, byte for byte, with the fixed strings written out. */
  lemma PrintedByteForByte(e: Envelope)
    requires Packable(e)
    ensures var data := HeaderBytes(e).value;
            && |data| == 46 && StartsWithMagic(data)
            && data[4] == e.version && data[5] == e.kdfId
            && Word(data, 6) == e.kdfN && Short(data, 10) == e.kdfR && Short(data, 12) == e.kdfP
            && (forall k :: 0 <= k < 16 ==> data[14 + k] == if k < |e.salt| then e.salt[k] else 0)
            && (forall k :: 0 <= k < 12 ==> data[30 + k] == if k < |e.nonce| then e.nonce[k] else 0)
            && Word(data, 42) == |e.ciphertext|
  {
    PrintedNumbers(e);
    PrintedStrings(e);
  }

  lemma PrintedNumbers(e: Envelope)
    requires Packable(e)
    ensures var data := HeaderBytes(e).value;
            && data[4] == e.version && data[5] == e.kdfId
            && Word(data, 6) == e.kdfN && Short(data, 10) == e.kdfR && Short(data, 12) == e.kdfP
            && Word(data, 42) == |e.ciphertext|
  {
    var data := HeaderBytes(e).value;
    HeaderLayout(e, []);
    assert data + [] == data;
    Uint32AsWord(data, 6, e.kdfN);
    Uint32AsWord(data, 42, |e.ciphertext|);
    Uint16AsShort(data, 10, e.kdfR);
    Uint16AsShort(data, 12, e.kdfP);
    assert data[4] == data[4..5][0] && data[5] == data[5..6][0];
  }

  lemma PrintedStrings(e: Envelope)
    requires Packable(e)
    ensures var data := HeaderBytes(e).value;
            && StartsWithMagic(data)
            && (forall k :: 0 <= k < 16 ==> data[14 + k] == if k < |e.salt| then e.salt[k] else 0)
            && (forall k :: 0 <= k < 12 ==> data[30 + k] == if k < |e.nonce| then e.nonce[k] else 0)
  {
    var data := HeaderBytes(e).value;
    HeaderLayout(e, []);
    assert data + [] == data;
    assert data[0] == data[..4][0] && data[1] == data[..4][1] && data[2] == data[..4][2] && data[3] == data[..4][3];
    forall k | 0 <= k < 16
      ensures data[14 + k] == if k < |e.salt| then e.salt[k] else 0
    {
      assert data[14 + k] == data[14..30][k];
      FixedFieldBytes(e.salt, SALT_LEN, k);
    }
    forall k | 0 <= k < 12
      ensures data[30 + k] == if k < |e.nonce| then e.nonce[k] else 0
    {
      assert data[30 + k] == data[30..42][k];
      FixedFieldBytes(e.nonce, NONCE_LEN, k);
    }
  }

  lemma Uint16AsShort(data: Bytes, at: nat, n: nat)
    requires at + 2 <= |data| && n < 0x1_0000 && data[at..at + 2] == Uint16(n)
    ensures Short(data, at) == n
  {
    assert data[at] == Uint16(n)[0] && data[at + 1] == Uint16(n)[1];
  }

  lemma Uint32AsWord(data: Bytes, at: nat, n: nat)
    requires at + 4 <= |data| && n < 0x1_0000_0000 && data[at..at + 4] == Uint32(n)
    ensures Word(data, at) == n
  {
    SliceOfSlice(data, at, at + 4, 0, 2);
    SliceOfSlice(data, at, at + 4, 2, 4);
    Uint16AsShort(data, at, n / 0x1_0000);
    Uint16AsShort(data, at + 2, n % 0x1_0000);
  }

  /** Packing succeeds exactly when each number can be told apart in its width. */
  lemma PacksExactlyWhen(e: Envelope)
    ensures HeaderBytes(e).Ok?
       <==> && 0 <= e.version < Span(1) && 0 <= e.kdfId < Span(1) && 0 <= e.kdfN < Span(4)
            && 0 <= e.kdfR < Span(2) && 0 <= e.kdfP < Span(2) && |e.ciphertext| < Span(4)
  {
    assert Span(1) == 0x100 && Span(2) == 256 * Span(1) && Span(3) == 256 * Span(2) && Span(4) == 256 * Span(3);
  }
}
