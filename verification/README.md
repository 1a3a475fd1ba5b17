# Verified model of the secure steganography platform

The platform hides an encrypted payload in the lowest bits of a PNG image and guards that service
with accounts, rotating refresh tokens and a login lockout. This project models its two stateful
cores in Dafny and proves what they promise.

**The codec.** A 46-byte header is printed and parsed (`Envelope.dfy`), bytes become bits and back
(`BitPacking.dfy`), a keyed in-place shuffle orders the channels (`PixelPermutation.dfy`), two
masked writes put the envelope into a copy of the channel array (`LsbPng.dfy`), and the services
encrypt, embed, extract and check (`Capacity.dfy`, `StegoPipeline.dfy`). `LsbProofs.dfy` says what
writing and reading guarantee together, and `StegoExactness.dfy` what extraction and the check make of
any image. AES-GCM, scrypt, SHA-256 and the generator are the fields of
`Primitives.Suite`; the laws used are in `Primitives.Lawful`.

**The sessions.** `AuthTables.dfy` has the rows and a database session with its committed and its
working copy; `RefreshTokens.dfy` issues, rotates and revokes row by row; `AuthApi.dfy` has the
routes, each proved to commit what the function `Apply` says; `RequestEffects.dfy` says what that is,
row by row. `AuthMachine.dfy` turns requests into
runs and proves the invariant of all reachable states; `FamilyLife.dfy`, `RefreshTransactions.dfy`
and `Lockout.dfy` prove what holds over whole runs.

## What the model assumes

- Requests are served one after the other, each in its own database session. `rotate` takes no row
  lock, so nothing is claimed about two requests that overlap.
- The clock does not go back, and a request reads it once (the code reads it several times in a row).
- Generated ids, family ids and token hashes never repeat; the unique columns hold. No injectivity of
  the hash is needed beyond that: every statement about a token is about all tokens with its hash.
- The AES-GCM library encrypts plaintexts of up to 2^31-1 bytes and raises an error on longer ones.
- Random salts and nonces have their lengths of 16 and 12 bytes and are otherwise arbitrary.
- Saving an image as PNG and loading it again is the identity on its channels.

## Where the code and its texts differ

- `app/steganography/pixel_permutation.py:3-6` and `app/crypto/envelope.py:19-21` say that the order
  is derived from the encryption key. The code derives it from the salt and the nonce
  (`app/steganography/lsb_png.py:75-86`), and so does the model: `StegoPipeline.AnyPassphraseMeetsTheSealedEnvelope`
  shows that every passphrase reaches the same ciphertext.
- The header does not check lengths: a salt that is not 16 bytes long is cut or padded without an
  error. `Envelopes.FieldsComeBackExactly` gives the exact condition.
- `fits` accepts an empty payload for an image too small for any envelope; the guard in `embed`
  decides. `Capacity.EstimateAgainstGuard` gives the exact difference, `Capacity.OnePixelPassesEstimate`
  an image.
- The structural check compares with the whole image, not with what the header leaves, and so accepts
  some images that cannot be read (`StegoPipeline.VerifyAcceptsUnreadableExactlyWhen`).
- With a limit of failed logins below one, a fresh account has reached its limit without being locked
  (`Lockout.LocksAreConsistentExactlyWhen`).

## Model

| member | source | states |
|---|---|---|
| BitPacking.ByteFromItsBits | app/steganography/lsb_png.py:37-38 | Unpacking is most significant bit first: a byte is the sum of its bits weighted 128 down to 1 |
| BitPacking.PackAfterUnpack | app/steganography/lsb_png.py:37-42 | Packing the unpacked bits of any byte string gives it back |
| BitPacking.UnpackAfterPack | app/steganography/lsb_png.py:37-42 | Unpacking packed bits gives the bits followed by the zero padding, for every number of bits |
| BitPacking.UnpackAfterPackWhole | app/steganography/lsb_png.py:37-42 | With a whole number of bytes there is no padding: the two are inverse |
| BitPacking.Uint16RoundTrip | app/crypto/envelope.py:31-33 | Two-byte fields: printing and parsing are inverse in both directions |
| BitPacking.Uint32RoundTrip | app/crypto/envelope.py:31-33 | Four-byte fields: printing and parsing are inverse in both directions |
| BitPacking.FirstByteWeighsMost | app/steganography/pixel_permutation.py:21-24 | Numbers are read big-endian, in the header and in the seed |
| Envelopes.HeaderBytes | app/crypto/envelope.py:55-67 | Packing succeeds exactly when every number fits its field, and gives 46 bytes |
| Envelopes.PackedHeader | app/crypto/envelope.py:31-33 | The packed header is its nine fields in the order of the struct format |
| Envelopes.HeaderLayout | app/crypto/envelope.py:6-15 | The offset of every header field |
| Envelopes.ParseAfterPrint | app/crypto/envelope.py:55-111 | Parsing a printed header with any suffix gives its stored fields, or the error of an unsupported version or KDF |
| Envelopes.FieldsComeBackExactly | app/crypto/envelope.py:69-111 | The fields come back unchanged if and only if salt and nonce have the reserved lengths |
| Envelopes.ShortSaltIsPadded | app/crypto/envelope.py:57-67 | An envelope with a one-byte salt prints and parses, but its salt comes back padded |
| Envelopes.PrintAfterParse | app/crypto/envelope.py:86-111 | Whatever parses is reproduced by printing, byte for byte |
| Envelopes.ParsedByteForByte | app/crypto/envelope.py:86-111 | What the parser answers to every byte string, byte for byte: one of the four errors in their order, or the fields at their offsets |
| Envelopes.PrintedByteForByte | app/crypto/envelope.py:55-67 | Every byte of a printed header, magic string and padding included |
| Envelopes.PacksExactlyWhen | app/crypto/envelope.py:31-67 | Packing succeeds exactly when each number is below the count of values its width holds |
| PixelPermutation.PermutedPositions | app/steganography/pixel_permutation.py:27-35 | The in-place shuffle of a copy computes the keyed order, a permutation of its input |
| PixelPermutation.PermutedIsBijection | app/steganography/pixel_permutation.py:27-35 | For every key, distinct positions stay distinct and the same |
| PixelPermutation.ShuffleReachesExactly | app/steganography/pixel_permutation.py:34-35 | The orders that draws can lead to are exactly the rearrangements of the input |
| PixelPermutation.SeedIsDigestPrefix | app/steganography/pixel_permutation.py:18-24 | The seed, on eight big-endian bytes, is the start of the digest of the domain string followed by the key |
| PixelPermutation.SameSeedExactlyWhen | app/steganography/pixel_permutation.py:21-24 | Two keys share a seed exactly when these eight bytes agree |
| PixelPermutation.OrderDependsOnSeedAndDraws | app/steganography/pixel_permutation.py:27-35 | Equal digest bytes and equal draws at that seed give equal orders, under any two hashes and generators |
| PixelPermutation.KeyedOrdersExactly | app/steganography/pixel_permutation.py:27-35 | For every key the generators together reach exactly the rearrangements of the positions |
| PixelPermutation.OrderFollowsKey | app/steganography/pixel_permutation.py:21-35 | Two keys give the same order under every generator exactly when their digest bytes agree |
| LsbPng.MaskedWrite | app/steganography/lsb_png.py:57-63 | The masked write on eight-bit words replaces the lowest bit by arithmetic |
| LsbPng.KeyedOrderIsBijection | app/steganography/lsb_png.py:60-61 | For every key and image size the order runs once through each position after the header |
| LsbPng.TargetsAreFree | app/steganography/lsb_png.py:60-62 | Targets are distinct, in range and disjoint from the header |
| LsbPng.VectorisedWrite | app/steganography/lsb_png.py:57-63 | A simultaneous write at distinct positions equals the sequential one |
| LsbPng.WriteOrderIsFree | app/steganography/lsb_png.py:57-63 | The sequential write gives the same array for every order of its (target, bit) pairs |
| LsbPng.TwoVectorisedWrites | app/steganography/lsb_png.py:56-63 | Header write and ciphertext write together write the serialized envelope bit by bit |
| LsbPng.Embed | app/steganography/lsb_png.py:45-72 | The two array writes produce the embedded image, or the packing or the capacity error |
| LsbPng.Embedded | app/steganography/lsb_png.py:50-54 | Embedding succeeds exactly when the header packs and all bits fit; the size stays |
| LsbPng.ReadCiphertextRegion | app/steganography/lsb_png.py:98-111 | Reading succeeds exactly when the declared bits fit after the header (or none are declared), and gives the declared length |
| LsbPng.ReadAfterWrite | app/steganography/lsb_png.py:62-63 | Bits written at distinct positions are read back |
| LsbProofs.ReadsBack | app/steganography/lsb_png.py:45-111 | Both regions of an embedded array read back the header and the ciphertext |
| LsbProofs.ReadsBackFromTouched | app/steganography/lsb_png.py:89-111 | So does every array that agrees with it in the lowest bits of the touched positions |
| LsbProofs.EmbeddingFrame | app/steganography/lsb_png.py:53-63 | Upper seven bits and untouched channels survive, no channel moves by more than one, at most one channel per bit changes |
| StegoExactness.EmbeddedChannelByChannel | app/steganography/lsb_png.py:50-63 | Every output channel: header bits in front in sequence, ciphertext bits in the order keyed by salt and nonce, upper bits and all other channels unchanged |
| StegoExactness.EmbeddingKeepsPicture | app/steganography/lsb_png.py:65-72 | Width, height and transparency of the picture survive, other modes become RGB, and the array fits the size |
| StegoExactness.EmbeddingKeepsPixels | app/steganography/lsb_png.py:65-67 | Each channel of each pixel, located by row and column in each image, keeps its upper seven bits |
| LsbProofs.SecondEmbeddingErasesFirst | app/steganography/lsb_png.py:45-63 | With the same order and no shorter ciphertext a second embedding leaves no trace of the first |
| LsbProofs.EmbeddingIsIdempotent | app/steganography/lsb_png.py:45-63 | Embedding the same envelope twice changes nothing more |
| LsbProofs.ReembeddingReadsLast | app/steganography/lsb_png.py:45-111 | Over any earlier embedding, a later one succeeds just as on the bare carrier and is what is read |
| LsbProofs.ReadIsLocal | app/steganography/lsb_png.py:98-111 | Reading the ciphertext region with a given order and length depends on the lowest bits of its targets only |
| LsbProofs.FlipReachesOneBit | app/steganography/lsb_png.py:104-111 | Flipping target k flips bit k of the ciphertext read and no other |
| LsbProofs.FlipElsewhereIsInvisible | app/steganography/lsb_png.py:89-111 | Flipping any other channel after the header changes nothing that is read |
| StegoPipeline.ExtractIsLocal | app/steganography/extractor.py:29-43 | On any two images with as many channels, equal lowest bits in the header and at the declared targets make extraction give the same payload or the same failure |
| StegoPipeline.ExtractIgnoresOtherChannels | app/steganography/extractor.py:29-43 | Extraction ignores every change of upper bits, and every change of a channel that is neither in the header nor a declared target |
| StegoExactness.ExtractsExactlyWhen | app/steganography/extractor.py:29-43 | From any image, a payload comes out exactly when the image carries an envelope that the passphrase, with the envelope's own salt and costs, opens to it |
| StegoExactness.CarriedIsUnique | app/steganography/extractor.py:33-37 | An image carries at most one envelope |
| StegoExactness.CleanImageHasNothing | app/steganography/extractor.py:29-43 | An image of zeros, and any image without the second bit of the magic string, is neither detected nor extracted from |
| StegoExactness.EmbedPayloadCarries | app/services/embed_service.py:27-39 | A successful embedding leaves an image that carries the payload encrypted under the key derived with n = 16384, r = 8, p = 1, in an envelope of version 1 |
| Capacity.EstimateAgainstGuard | app/steganography/capacity.py:22-36 | Byte estimate and bit guard agree except, exactly, on the empty payload in an image too small for an envelope |
| Capacity.OnePixelPassesEstimate | app/steganography/capacity.py:28-36 | An image where they differ: one RGB pixel passes the estimate for the empty payload |
| Capacity.CapacityByMode | app/steganography/capacity.py:17-25 | Half a byte per RGBA pixel, three bits per other pixel, and the array sizes that go with them |
| Capacity.HundredPixels | app/steganography/capacity.py:17-25 | One hundred pixels hold 50 bytes in RGBA and 37 in RGB |
| Capacity.MaxPayloadIsTight | app/steganography/capacity.py:28-31 | The reported maximum fits, and a payload fits exactly when it is no longer |
| StegoPipeline.SealSucceedsExactlyWhen | app/services/embed_service.py:27-38 | With a derivable key sealing fails exactly beyond the encryption's bound, and its envelope always packs |
| StegoPipeline.EmbedSucceedsExactlyWhen | app/services/embed_service.py:19-39 | Embedding succeeds if and only if the envelope fits the image, the payload is within the encryption's bound, and the key derives |
| StegoPipeline.RefusedForRoomExactlyWhen | app/services/embed_service.py:22-39 | The capacity error is raised exactly when there is no room, unless the payload is empty and the key does not derive |
| StegoPipeline.EnvelopeComesBack | app/steganography/extractor.py:33-37 | The parsed header determines the order and the length under which the ciphertext comes back |
| StegoPipeline.AnyPassphraseMeetsTheSealedEnvelope | app/steganography/extractor.py:29-43 | Extraction with any passphrase is decryption of exactly the embedded ciphertext under the key derived from it |
| StegoPipeline.RoundTrip | app/services/embed_service.py:19-39 | Whenever embedding succeeds, extraction with the same passphrase returns the payload |
| StegoPipeline.RoundTripSurvivesOtherChanges | app/steganography/extractor.py:29-43 | The payload survives every change outside the lowest bits of the envelope's positions |
| StegoPipeline.FlipAfterHeader | app/steganography/extractor.py:33-37 | In any readable image a flipped target leaves the header and flips one ciphertext bit |
| StegoPipeline.FlipReachesDecryption | app/steganography/extractor.py:33-41 | A flipped target hands decryption, under the right key, the embedded ciphertext with that one bit flipped |
| StegoPipeline.VerifyAcceptsExtractable | app/steganography/verifier.py:33-47 | Whatever has a readable envelope passes the structural check with both flags and versions 1 and 1 |
| StegoPipeline.VerifyAcceptsEmbedded | app/steganography/verifier.py:33-47 | So does the result of every successful embedding |
| StegoExactness.VerifyDetectsExactlyWhen | app/steganography/verifier.py:33-47 | On every image, a payload is detected exactly when some envelope's header is held; otherwise nothing is reported |
| StegoExactness.VerifyWithHeader | app/steganography/verifier.py:40-47 | With a header the versions are 1 and 1, and the structure is valid exactly when the declared bits are no more than the channels |
| StegoPipeline.VerifyAcceptsUnreadableExactlyWhen | app/steganography/verifier.py:40-47 | The check passes although the ciphertext cannot be read exactly when the declared bits fit the image and not what the header leaves |
| StegoPipeline.AcceptedButUnreadable | app/steganography/verifier.py:40-47 | Images of that kind exist in every size that holds a header |
| AuthTables.Database.constructor | app/db/session.py:30-36 | A database session starts with nothing pending |
| AuthTables.Database.Commit | app/auth/refresh_tokens.py:124-129 | Committing makes the flushed changes permanent |
| AuthTables.Database.Close | app/db/session.py:30-36 | Closing abandons what was not committed |
| AuthTables.Database.SelectSession | app/auth/refresh_tokens.py:98-103 | Lookup of a session by token hash |
| AuthTables.Database.SelectUser | app/api/v1/auth.py:92-92 | Lookup of a user by email |
| RefreshTokens.IssueInitial | app/auth/refresh_tokens.py:69-89 | One row is added, with the given family and the token's hash |
| RefreshTokens.Rotate | app/auth/refresh_tokens.py:92-129 | The four outcomes of presenting a token and the working table after each |
| RefreshTokens.RevokeFamily | app/auth/refresh_tokens.py:132-139 | The loop stamps exactly the unrevoked rows of the family |
| RefreshTokens.RevokeSession | app/auth/refresh_tokens.py:142-146 | One row is stamped unless it was already |
| RefreshTokens.RevokeAllForUser | app/auth/refresh_tokens.py:149-159 | Returns the number of rows changed, leaves the user no unrevoked session and every other user's rows alone |
| AuthApi.RegisterRoute | app/api/v1/auth.py:73-85 | Commits one new user, or nothing on a known email |
| AuthApi.LoginRoute | app/api/v1/auth.py:88-116 | Commits a counted failure, or the reset counter with a new family, or nothing while locked |
| AuthApi.RefreshRoute | app/api/v1/auth.py:119-142 | Commits a rotation or a burnt family; every other rejection leaves the committed tables as they were |
| AuthApi.LogoutRoute | app/api/v1/auth.py:145-154 | Commits the revocation of the presented token's session, if it has one |
| AuthApi.RevokeOneRoute | app/api/v1/auth.py:197-213 | Revokes a session of the caller and never another user's |
| AuthApi.DeleteMeRoute | app/api/v1/auth.py:169-174 | Deletes the caller with all of the caller's sessions |
| AuthApi.SetStatusRoute | app/api/v1/admin.py:37-55 | Sets the status of an existing user |
| RequestEffects.LoginOutcomeExactlyWhen | app/api/v1/auth.py:92-110 | A known user is logged in exactly when not locked, active and with a password that verifies; a failure is counted exactly when not locked and otherwise |
| RequestEffects.LoginEffect | app/api/v1/auth.py:94-116 | Every column of the rows a login changes, in its three cases |
| RequestEffects.UnknownEmailChangesNothing | app/api/v1/auth.py:92-111 | A login under an unknown email commits nothing |
| RequestEffects.EventsExactlyWhen | app/api/v1/auth.py:94-113 | The failures and logins that the lockout results count are these logins and no other requests |
| RequestEffects.RegisterEffect | app/api/v1/auth.py:73-85 | Every column of the new row, or nothing on a taken email |
| RequestEffects.RegisteredUserLogsIn | app/api/v1/auth.py:73-116 | After a registration, the account untouched, a password logs in at any time exactly when it verifies against the registered hash |
| RequestEffects.RotatesExactlyWhen | app/auth/refresh_tokens.py:98-111 | A refresh issues a successor exactly for an unrevoked, unexpired session with the token's hash and an active user |
| RequestEffects.RefreshEffect | app/auth/refresh_tokens.py:98-139 | Every row after a refresh: the spent one revoked at that time and linked to its new successor, or the family stamped, or nothing |
| RequestEffects.UnknownTokenChangesNothing | app/auth/refresh_tokens.py:98-103 | Refreshing or logging out with an unknown token commits nothing |
| RequestEffects.LogoutEffect | app/api/v1/auth.py:145-154 | A logout stamps the session with the token's hash, if unrevoked, and nothing else |
| RequestEffects.RevokeOneEffect | app/api/v1/auth.py:197-213 | Revoking one stamps the target if it is an active caller's own and nothing else |
| RequestEffects.RevokeAllEffect | app/auth/refresh_tokens.py:149-159 | Revoking all stamps every unrevoked session of the user and nothing else |
| RequestEffects.DeleteMeEffect | app/api/v1/auth.py:169-174 | An active caller goes with exactly the caller's sessions; nothing else changes |
| RequestEffects.SetStatusEffect | app/api/v1/admin.py:50-55 | One column of one user changes |
| AuthMachine.StepIsOneChange | app/auth/refresh_tokens.py:69-159 | Every request changes the session table in one of four ways or not at all, with fresh ids and a live spent session |
| AuthMachine.StepIsOneUserChange | app/api/v1/auth.py:73-116 | Every request changes the user table in one of five ways or not at all |
| AuthMachine.RotationExtendsChain | app/auth/refresh_tokens.py:113-129 | A rotation appends the successor to its family's chain |
| AuthMachine.ChangeKeepsChains | app/auth/refresh_tokens.py:69-159 | No change breaks the chain of any family |
| AuthMachine.StepKeepsInv | app/api/v1/auth.py:73-213 | Every request keeps the whole invariant |
| AuthMachine.ReachableInv | app/api/v1/auth.py:73-213 | In every reachable state each family is one chain of one user, non-last sessions revoked and linked to the next; hashes and emails are unique, owners exist, stamps are ordered |
| AuthMachine.OneUnrevokedPerFamily | app/auth/refresh_tokens.py:6-10 | A family has at most one unrevoked session, and it has no successor |
| AuthMachine.SuccessorsAreUnique | app/auth/refresh_tokens.py:124-129 | No two sessions share a successor, which is another session of the family and the user |
| FamilyLife.RunEvolvesRows | app/auth/refresh_tokens.py:126-159 | Over every run revocation time and successor are written once and the other columns never change |
| FamilyLife.TokenReachesOnlyItsFamily | app/auth/refresh_tokens.py:98-139 | A request presenting a token changes rows of that token's family only |
| FamilyLife.DeadStaysDead | app/auth/refresh_tokens.py:105-123 | A family without a live session has none in any continuation and gets no session any more |
| FamilyLife.RevocationKillsFamily | app/auth/refresh_tokens.py:142-159 | Revoking the unrevoked session of a family by whatever route leaves it dead |
| FamilyLife.DeadWhenTailIs | app/auth/refresh_tokens.py:105-111 | A family is dead exactly when the last session of its chain is |
| FamilyLife.AtMostOneRotation | app/auth/refresh_tokens.py:105-127 | In any run a token is rotated at most once |
| FamilyLife.ReplayKillsFamily | app/auth/refresh_tokens.py:105-108 | Presenting a revoked session's token revokes the family for good, and nothing is added to it in any continuation |
| FamilyLife.SecondUseKillsFamily | app/auth/refresh_tokens.py:6-14 | A second use of a rotated token, any time later, is rejected and leaves its family revoked and closed in every continuation |
| FamilyLife.SessionKeptExactlyWhen | app/auth/refresh_tokens.py:98-159 | Of all requests of anybody, exactly the listed ones change an unrevoked session or its owner's status |
| FamilyLife.UnaffectedTokenRotates | app/auth/refresh_tokens.py:110-129 | Over every run without such a request, whatever else happens, an active user's unexpired token rotates at the end |
| FamilyLife.IssuedTokenRotatesUntilExpiry | app/auth/refresh_tokens.py:83-123 | A token from a login or a rotation, its session unaffected since, rotates exactly until its lifetime is over |
| RefreshTransactions.RejectionChangesExactlyWhen | app/api/v1/auth.py:123-136 | A rejected refresh changes the committed tables exactly when it replays a token of a family with an unrevoked session |
| RefreshTransactions.ReplayFrame | app/auth/refresh_tokens.py:132-139 | A replay stamps the unrevoked rows of the one family and nothing else |
| RefreshTransactions.FutileRefreshesChangeNothing | app/api/v1/auth.py:123-136 | Any number of refreshes, with any tokens, that neither rotate nor burn leaves the committed tables as they were |
| RefreshTransactions.DisabledAttemptsChangeNothing | app/api/v1/auth.py:132-136 | In particular a run of refreshes with a disabled user's unrevoked tokens, as nothing that was flushed is committed |
| RefreshTransactions.DisableEnableKeepsTokens | app/api/v1/auth.py:132-136 | After disabling and enabling an account its unexpired token still rotates, with any requests of anybody in between except a replay of the family, a logout with the session's token, a revocation of all the user's sessions, or another enabling |
| RefreshTransactions.OwnAttemptAffectsNothing | app/api/v1/auth.py:132-136 | While the account is disabled, attempts with its own unrevoked tokens are among the requests that affect no session |
| Lockout.LocksAreConsistentExactlyWhen | app/api/v1/auth.py:104-115 | A lock is set exactly when the counter has reached the limit, in every reachable state, if and only if the limit is at least one |
| Lockout.CounterIsHistory | app/api/v1/auth.py:104-115 | The counter is the number of counted failures since the last login or the registration |
| Lockout.FailuresTakeTime | app/api/v1/auth.py:95-108 | Failures beyond what was left of the limit each cost a full lockout period |
| Lockout.FailureRate | app/api/v1/auth.py:95-108 | Without a login, counted failures are at most the limit (or one) plus the full lockout periods in the window, for every setting of the limit |
| Lockout.LockedFailuresAreApart | app/api/v1/auth.py:104-108 | From the failure that reaches the limit on, counted failures are a lockout period apart |
| Lockout.LockRunsOut | app/api/v1/auth.py:95-102 | With the right password an active user gets in exactly when the stored end of the lock has come, at the latest one lockout period after the last request |
| Lockout.LockLastsOnePeriod | app/api/v1/auth.py:95-108 | After the failure that reaches the limit the right password is refused for exactly one lockout period, whatever others do |

## Left out

- PNG decoding and encoding, colour-mode conversion and upload validation: library calls; an image is its size, its mode and the flat channel array it is turned into.
- AES-GCM, scrypt, SHA-256, Argon2 and JWT internals: parameters; nothing is claimed about secrecy or about what decryption does with a changed ciphertext.
- The generator's bit stream: draws are an arbitrary function of seed, number of positions and step.
- Overlapping requests and database isolation levels: requests are serial.
- Several clock readings within one request: one reading stands for all of them.
- Request parsing, UUID parsing, email and password rules, role checks of the admin routes, headers, metrics, user agents and address hashes: plumbing without effect on the modelled tables.
- Access tokens: a request carries the user its access token resolves to; expiry of access tokens is not modelled.
- Sessions and users in memory as shared objects: rows are values in the tables, so aliasing of loaded rows is not captured.
- Job records, admin listings and `/me`: these routes are not modelled.
- A ciphertext beyond the AES-GCM library's bound on decryption: the model has one failure of decryption only.
- RevokeAllForUser: no route calls it; runs include it as a request of its own so that the invariants cover it.
- Audit chain, rate limiting, cleanup, storage, MFA: stubs without code.
