# Verified models of the voice client's core

This project models the hand-written algorithms of a voice-chat client and proves what they compute. Each algorithm is
kept in the form the program gives it (contexts updated field by field, byte arrays changed in place, loops over limbs
and cells) and is proved against a short mathematical definition; the properties the program relies on are then proved
about that definition, for all inputs. The tables and constants of the ciphers and hashes do not stand for
themselves: they are proved to be what the standards define them as.

* **Cryptography** (`src/core/crypto.cpp`): Poly1305 in five 26-bit limbs, GHASH and AES-GCM, ChaCha20, HChaCha20 and
  XChaCha20-Poly1305, streaming SHA-256 and SHA-1, HMAC and HKDF, the MLS KDFLabel with its variable-length integers,
  base64 and DER signatures. The definitions follow RFC 8439, NIST SP 800-38D, FIPS 197, FIPS 180-4, RFC 2104,
  RFC 5869, RFC 9420, RFC 4648 and ITU-T X.690.
* **Audio** (`src/audio/audio.cpp`): the circular buffer that speakers are mixed into by addition, its capture use, the
  cushion and fades of playback, and the soft limiter.
* **mp3** (`src/audio/mp3.cpp`): the pull loop over an arbitrary decoder and an arbitrary resampler, seeking, and
  decoding a whole file.
* **Language** (`src/core/lang.cpp`): translation by binary search over hashes that may collide.

## How it is put together

| files | what they hold |
|---|---|
| `Bits`, `Bytes`, `Words`, `WordBits`, `Vectors` | bitwise operations on naturals, byte strings as numbers, 32-bit words, their single bits, and the bit vectors on which published values are computed |
| `Poly1305Spec`, `Poly1305Limbs`, `Poly1305Finish`, `Poly1305` | the polynomial, one block in limbs, the final reduction, the context |
| `GhashSpec`, `Ghash`, `Aes`, `Gcm` | the field product and its laws, the byte-wise multiply, the block cipher, the mode |
| `AesBox`, `AesInverse` | the substitution table against its definition and the key expansion, the inverse steps |
| `ChaCha`, `XChaChaPoly` | the stream cipher and the AEAD on it |
| `ShaSpec`, `ShaConstants`, `ShaFunctions`, `Sha` | padding and compression, the constants as roots of primes, the functions bit by bit, the streaming context |
| `Hkdf`, `KdfLabel` | HMAC and HKDF, KDFLabel |
| `GrowingBuffer`, `Base64`, `Der` | the buffer text is appended to, and the two codecs, each with its definition in a `...Spec` module |
| `RingSpec`, `Ring`, `Limiter` | queues and whole runs of operations, the circular buffer, the limiter |
| `Mp3Spec`, `Mp3Chunking`, `Mp3Resamplers`, `Mp3` | the reader as a state machine on values, how reads may be cut, resamplers by example, and the reader |
| `Lang` | hash, search and the chosen language |

A byte is a natural below 256 and a word a natural below 2^32 or 2^64; every wrap-around of the C++ code is written as
a remainder. Where the code relies on none happening, either the bound is proved or the exact condition under which it
does not happen is, and the contracts are stated under it. The allocator of
`src/libs/customcrt/customcrt_memory.cpp:202-204` takes a signed 32-bit size, so sizes from 2^31 on fail
(`Bytes.Allocates`). C's division of negative samples is `RingSpec.TruncDiv`. Locks, the device and the clock do not
appear; a method is one undisturbed call.

## Findings

* A shortfall of `pop_padded` slides into silence only when that call still had samples to take. If the previous call
  landed exactly on empty, its last sample was delivered at full level and the silence that follows is a step, which
  the comment at `src/audio/audio.cpp:230-232` means to avoid. `RingSpec.ShortfallEdge` gives the exact condition and
  `RingSpec.UnrampedRun` a run in which it happens; `RingSpec.ShortfallsInRuns` says the same of any run.
* `mix` and `push` are queue operations exactly when the samples fit behind what the overrun leaves
  (`Ring.Ring.Mix`, `Ring.Ring.Push`). With an even fill that is every call shorter than the ring, with an odd fill every
  call at least two samples shorter (`RingSpec.FitsExactly`): from an odd fill the overrun has to leave one sample.
* What `varint_write` writes can be read back exactly below 2^30: from there on its tag bits run into the value, and
  two values can be written alike (`KdfLabelSpec.ReadWritten`, `KdfLabelSpec.VarintCollision`).
* `der_decode_signature` also accepts integers with superfluous leading zeros, and negative ones, whose first content
  byte is 0x80 or more, which it takes for positive. Encoding what it read gives the same
  bytes back exactly when both integers were minimal (`DerSpec.Canonical`, `DerSpec.NotCanonical`).
* `hkdf_expand_n` sizes its working block in 32 bits. The block holds everything that is laid out in it exactly for infos
  shorter than 2^32 - 33 bytes (`Hkdf.CapacityExact`); from there on the sum `info_len + 33` wraps and the block on the
  stack is kept. From 2^31 - 33 bytes up to there the size, cast to `int`, is negative, no block is allocated and the
  call fails.
* `mls_expand_with_label_n` sizes its label in 32 bits in the same way: what is laid out stays inside the block exactly
  while it is less than 2^32 bytes, or while the wrapped size is one that cannot be allocated (`KdfLabel.NeedExact`).
* `base64_encode` and `base64_decode` append to a buffer that holds at most 2^30 - 1 bytes and silently drops the rest;
  both report nothing (`Base64.Encode`, `Base64.Decode`, `GrowingBuffer.KeptExactly`,
  `GrowingBuffer.FullGainsNothing`). The encoder does not come to an end for a length of 2^32 - 1, where its index wraps
  (`Base64.GroupsEnd`), nor when it reserves more than 2^31 bytes, which no doubled 32-bit capacity reaches
  (`GrowingBuffer.GrowthEnds`).
* A seek that cannot build a new resampler leaves the stream without one, and it then plays at the file's own rate
  (`Mp3.Stream.Seek`).

## What is assumed of a resampler

However callers cut their reads of a file they have opened, over all files and behind a decoder that gives what it has,
the cuts never show in the output of `mp3::read` if and only if the resampler is seamless from the state it is built in:
whatever full buffers of 4096 frames it has been through since, what the loop draws from its next buffer, full or cut
short by the end of the file, does not depend on the portions it is drawn in (`Mp3Chunking.ChunkingExact`). With a
resampler that is so in every state, the decoder may be any (`Mp3Spec.ReadSplit`). Streaming resamplers are
(`Mp3Spec.StreamingSeamless`), doubling the rate among them, and with a streaming one the branch that discards waiting
samples is dead (`Mp3Spec.TurnProgresses`); keeping to the offered and requested lengths alone is not enough
(`Mp3Resamplers.HonestIsNotEnough`). That the resampler the program links is seamless is an assumption here, not a
result.

## Model

| member | source | states |
|---|---|---|
| Poly1305Spec.AccumulateIsPolynomial | src/core/crypto.cpp:438-478 | multiplying and adding block by block (Horner) is the message polynomial at r modulo 2^130 - 5, for every message and starting value |
| Poly1305Spec.MacIsPolynomial | src/core/crypto.cpp:510-560 | the tag, read as a number, is ((polynomial at the clamped r mod 2^130 - 5) + s) mod 2^128, as in section 2.5 of RFC 8439 |
| Poly1305Limbs.ProductCongruent | src/core/crypto.cpp:454-463 | the five columns with the factor 5 on the wrapped limbs denote the product of the two numbers modulo p |
| Poly1305Limbs.ProductBelow | src/core/crypto.cpp:443-463 | with loaded limbs and a clamped key no 64-bit column overflows, and the top one stays small enough for the final carry |
| Poly1305Limbs.MultiplyColumns | src/core/crypto.cpp:443-463 | the 64-bit sums, with every partial sum inside 64 bits, are the columns of the schoolbook product |
| Poly1305Limbs.CarryColumns | src/core/crypto.cpp:465-471 | the carry chain with c*5 folded back keeps the value modulo p, never wraps a 32-bit carry, and restores the limb invariant (h1 < 2^26 + 64, others < 2^26) |
| Poly1305Limbs.MultiplyReduce | src/core/crypto.cpp:446-475 | one block step: from loaded limbs to settled limbs whose value is the product modulo p |
| Poly1305Limbs.BlockLimbsValue | src/core/crypto.cpp:448-452 | the overlapping loads with their shifts and masks split the 16 bytes, plus the high bit, into limbs of the same value |
| Bytes.Load32Joins | src/core/crypto.cpp:331-334 | joining the four shifted bytes with or is the little-endian word |
| Poly1305Limbs.KeyLimbsValue | src/core/crypto.cpp:425-429 | the five masked loads are exactly the clamped key of section 2.5.1 of RFC 8439 |
| Poly1305Finish.FullCarry | src/core/crypto.cpp:521-528 | one carry pass from the invariant leaves every limb below 2^26 and the value unchanged modulo p |
| Poly1305Finish.ConditionalSubtract | src/core/crypto.cpp:530-543 | computing h + 5 - 2^130 and selecting by mask gives the representative below p |
| Poly1305Finish.Pack | src/core/crypto.cpp:545-548 | shifting 26-bit limbs into 32-bit words keeps the value modulo 2^128 |
| Poly1305Finish.AddPad | src/core/crypto.cpp:550-559 | the four carried additions are addition of s modulo 2^128, stored little-endian |
| Poly1305.Load | src/core/crypto.cpp:448-452 | adding a block to settled limbs adds its number and gives limbs small enough to multiply |
| Poly1305.FoldIsAccumulate | src/core/crypto.cpp:438-478 | the loop over 16-byte blocks with the high bit set is the accumulator of the definition |
| Poly1305.AccumulateConcat | src/core/crypto.cpp:480-508 | the accumulator of a concatenation at a block boundary is the accumulator continued |
| Poly1305.AbsorbLast | src/core/crypto.cpp:510-519 | the short last block filled with 1 and zeros and no high bit is the definition's last block |
| Poly1305.Tag | src/core/crypto.cpp:550-559 | the finished words with the key's second half added are the tag of the definition |
| Poly1305.Context.constructor | src/core/crypto.cpp:423-436 | a fresh context has absorbed nothing and holds the clamped key |
| Poly1305.Context.Blocks | src/core/crypto.cpp:438-478 | any number of blocks keeps the limb invariant and folds the block numbers into the value modulo p |
| Poly1305.Context.TopUp | src/core/crypto.cpp:482-493 | completing a partial block absorbs a front of the input and loses nothing |
| Poly1305.Context.Update | src/core/crypto.cpp:480-508 | whatever the split, the message of the context is the concatenation of the updates |
| Poly1305.Context.Finish | src/core/crypto.cpp:510-560 | the result is the tag of everything updated, under the key |
| GhashSpec.ReductionPolynomial | src/core/crypto.cpp:951-969 | the constant 0xE1 is the polynomial 1 + a + a^2 + a^7 in the reflected bit order |
| GhashSpec.ProductOne | src/core/crypto.cpp:953-972 | the block with only the leftmost bit set is the unit of the product |
| GhashSpec.ProductCommutes | src/core/crypto.cpp:953-972 | the shift-and-add product is commutative, although it treats its arguments differently |
| GhashSpec.ProductAssociates | src/core/crypto.cpp:953-972 | it is associative on all blocks |
| GhashSpec.ProductDistributes | src/core/crypto.cpp:953-972 | it is linear in both arguments |
| Ghash.ShiftAndFold | src/core/crypto.cpp:966-969 | the byte-wise right shift with carries and the conditional 0xE1 is one multiplication by the generator |
| Ghash.MultiplyByte | src/core/crypto.cpp:961-970 | eight bits of the first factor, high bit first, keep what the loop will end with |
| Ghash.Multiply | src/core/crypto.cpp:953-972 | the in-place multiply computes the block product of section 6.3 of NIST SP 800-38D |
| Ghash.FoldConcat | src/core/crypto.cpp:975-995 | absorbing in two pieces at a block boundary is absorbing the whole |
| Ghash.FoldLinear | src/core/crypto.cpp:975-995 | the whole fold is linear: of a sum of states and a sum of strings it is the sum of the folds |
| Ghash.FoldIsPolynomial | src/core/crypto.cpp:975-995 | the fold is the polynomial in the hash key of section 6.4 of NIST SP 800-38D, on top of the starting state times the highest power |
| Ghash.GhashIsPolynomial | src/core/crypto.cpp:975-1007 | from zero it is that polynomial alone |
| Ghash.AbsorbBlock | src/core/crypto.cpp:981-984 | xor and multiply, with a short block counting as zero-filled |
| Ghash.Absorb | src/core/crypto.cpp:975-995 | any length is the GHASH fold over its zero-filled blocks |
| Ghash.AbsorbLengths | src/core/crypto.cpp:997-1007 | the two 64-bit lengths are absorbed as one big-endian block |
| Aes.MixIsDoubling | src/core/crypto.cpp:933-941 | the xtime form of MixColumns is multiplication by the matrix 2 3 1 1 of FIPS 197 |
| Aes.RoundConstants | src/core/crypto.cpp:861-862 | the table holds the successive doublings that define the round constants |
| Aes.NextTemp | src/core/crypto.cpp:887-904 | the rotated and substituted word of the key schedule, including the extra substitution of 256-bit keys |
| Aes.RoundKeys.Expand | src/core/crypto.cpp:875-912 | accepts exactly 16, 24 and 32 bytes and fills the schedule of section 5.2 of FIPS 197 in place |
| Aes.RoundKeys.EncryptBlock | src/core/crypto.cpp:914-949 | the in-place rounds compute the FIPS 197 cipher for every key size |
| Aes.SubstituteBytes | src/core/crypto.cpp:921 | every byte goes through the S-box, in place |
| Aes.RotateRows | src/core/crypto.cpp:923-929 | the unrolled assignments rotate row r left by r |
| Aes.MixAllColumns | src/core/crypto.cpp:933-941 | the in-place column step is MixColumns |
| AesBox.Substitution | src/core/crypto.cpp:843-859 | every entry of the table is the affine image of the inverse in GF(2^8) of its place, zero standing for its own inverse (section 5.1.1 of FIPS 197) |
| AesInverse.MixUndone | src/core/crypto.cpp:933-941 | the inverse matrix of section 5.3.3 undoes the column step on every state |
| AesInverse.ShiftUndone | src/core/crypto.cpp:923-929 | rotating the rows to the right undoes the row step |
| AesInverse.RoundUndone | src/core/crypto.cpp:914-949 | the steps of the inverse cipher lead from the state after any round, the 10th, 12th or 14th being the last and without columns, back to the substituted state before it |
| AesExpansion.ExpansionRule | src/core/crypto.cpp:882-911 | for all three key sizes, every byte of the expanded key from those before it |
| AesExpansion.Example128 | src/core/crypto.cpp:875-912 | the first expanded word of the published example |
| GcmSpec.CryptInvolution | src/core/crypto.cpp:1072-1086 | counter mode undoes itself, for every length |
| GcmSpec.OpenSeal | src/core/crypto.cpp:1018-1104 | opening what was sealed gives the plaintext, for every key size, nonce length and tag length up to 16 |
| GcmSpec.CounterBytes | src/core/crypto.cpp:1009-1016 | the i-th counter keeps twelve bytes and adds i modulo 2^32 to the last four |
| GcmSpec.CountersDistinct | src/core/crypto.cpp:1072-1076 | counters fewer than 2^32 steps apart differ, the start block included, wherever the count starts |
| GcmSpec.CryptByte | src/core/crypto.cpp:1072-1086 | byte 16k + j of the text meets byte j of the encryption of counter k + 1 |
| GcmSpec.TextMeets | src/core/crypto.cpp:1036-1104 | with a 12-byte nonce block k of the text meets the nonce and the number k + 2, and the number 1 masks the digest of the additional data and the ciphertext, so that no text meets the mask |
| GcmSpec.DigestLayout | src/core/crypto.cpp:1056-1061 | what is hashed holds the data and the text, each zero-filled to whole blocks, and their bit lengths in that order |
| Gcm.NextCounter | src/core/crypto.cpp:1009-1016 | the carry loop with its early exit is addition of one modulo 2^32, the first twelve bytes untouched |
| Gcm.IncrementedIsInc32 | src/core/crypto.cpp:1009-1016 | a byte-wise carry is big-endian addition of one |
| Gcm.DigestBlock | src/core/crypto.cpp:1056-1061 | the authenticated digest of additional data, text and lengths |
| Gcm.Start | src/core/crypto.cpp:1036-1049 | the start block for a 12-byte nonce and for any other length |
| Gcm.CounterMode | src/core/crypto.cpp:1072-1086 | the block loop with its short last block is counter mode from the start block |
| Gcm.MaskedTag | src/core/crypto.cpp:1088-1101 | the truncated, masked tag |
| Gcm.Run | src/core/crypto.cpp:1018-1104 | accepts exactly the documented sizes, seals or opens as defined, and writes nothing when it refuses |
| Gcm.AesGcmEncrypt | src/core/crypto.cpp:1106-1116 | ciphertext and tag are those of section 7.1 of NIST SP 800-38D |
| Gcm.SealThenOpen | src/core/crypto.cpp:1106-1130 | encrypting and then decrypting through the code succeeds and returns the plaintext |
| ChaCha.QuarterRound | src/core/crypto.cpp:340-345 | the in-place macro on four different words is the quarter round of section 2.1 of RFC 8439 |
| ChaChaExample.QuarterExample | src/core/crypto.cpp:341-345 | the published example of section 2.1.1 of RFC 8439 |
| ChaChaSpec.ColumnsApart | src/core/crypto.cpp:351-354 | a column round takes each column through a quarter round of its own |
| ChaChaSpec.DiagonalsAreColumns | src/core/crypto.cpp:355-358 | a diagonal round is a column round between rotating row r left by r and back |
| ChaCha.Rounds | src/core/crypto.cpp:347-360 | ten column and diagonal rounds |
| ChaCha.BlockBytes | src/core/crypto.cpp:362-381 | the key stream block |
| ChaChaSpec.MatrixBytes | src/core/crypto.cpp:362-371 | the starting matrix, stored as bytes, is "expand 32-byte k", the key, the counter and the nonce |
| ChaChaSpec.TwentyRounds | src/core/crypto.cpp:373-411 | the block is twenty alternating rounds added to what they started from, and the subkey the outer rows of the same rounds without the addition |
| ChaChaSpec.CryptInvolution | src/core/crypto.cpp:383-398 | the stream applied twice restores the text, across blocks and a short last one |
| ChaChaSpec.CryptByte | src/core/crypto.cpp:383-398 | byte 64k + j meets byte j of the block with the counter advanced by k modulo 2^32 |
| ChaCha.XorStream | src/core/crypto.cpp:383-398 | the loop applies that stream and touches nothing behind the text |
| ChaCha.Subkey | src/core/crypto.cpp:400-411 | HChaCha20 |
| XChaChaPolySpec.OpenSeal | src/core/crypto.cpp:589-633 | opening what was sealed gives the plaintext, for every length |
| XChaChaPolySpec.TextMeets | src/core/crypto.cpp:589-606 | byte j of block k of the text meets byte j of key stream block k + 1, never block 0, whose first half keys the tag of the data and the ciphertext |
| XChaChaPolySpec.MacDataLayout | src/core/crypto.cpp:563-587 | the authenticated string holds the data and the ciphertext, each zero-filled to whole blocks, and their lengths in that order |
| XChaChaPolySpec.MacDataInjective | src/core/crypto.cpp:562-587 | the authenticated string determines the additional data and the ciphertext |
| XChaChaPoly.AeadTag | src/core/crypto.cpp:563-587 | the streamed tag is Poly1305 of the padded concatenation of section 2.8 of RFC 8439 |
| XChaChaPoly.Encrypt | src/core/crypto.cpp:589-606 | the ciphertext and the tag of the definition |
| XChaChaPoly.Decrypt | src/core/crypto.cpp:608-633 | succeeds exactly on the right tag, and writes nothing otherwise |
| XChaChaPoly.EncryptThenDecrypt | src/core/crypto.cpp:589-633 | the round trip through the code |
| ShaSpec.PaddingLength | src/core/crypto.cpp:118-134 | the padding fills to whole blocks |
| ShaSpec.PaddingLayout | src/core/crypto.cpp:118-134 | the padding is the byte 0x80, zeros, and the bit length as a big-endian number up to the end of a block |
| ShaSpec.OutputWords | src/core/crypto.cpp:135-141 | the digest holds the words of the state, each big-endian |
| ShaConstants.FirstPrimes | src/core/crypto.cpp:38-47 | the primes the constants are taken from are the first 64, in order and none missing |
| ShaConstants.CubeRoots | src/core/crypto.cpp:38-47 | each round constant is the first 32 bits of the fractional part of the cube root of its prime (section 4.2.2 of FIPS 180-4) |
| ShaConstants.SquareRoots | src/core/crypto.cpp:86-94 | each initial word of SHA-256 is the first 32 bits of the fractional part of the square root of its prime (section 5.3.3) |
| ShaConstants.StepRoots | src/core/crypto.cpp:173-177 | the constants of SHA-1 are the square roots of 2, 3, 5 and 10 to 30 binary places |
| ShaConstants.StartPattern | src/core/crypto.cpp:186-193 | the initial state of SHA-1, stored little-endian, counts its digits up, down and up again |
| ShaFunctions.SigmaBits | src/core/crypto.cpp:61-74 | each bit of the four mixing functions is the exclusive or of three bits of the word, counted around or shifted out (section 4.1.2) |
| ShaFunctions.ChooseBits | src/core/crypto.cpp:72 | each bit of Ch comes from y where x has a one and from z elsewhere |
| ShaFunctions.MajorityBits | src/core/crypto.cpp:75 | each bit of Maj is the one at least two of the three agree on |
| ShaFunctions.ScheduleSum256 | src/core/crypto.cpp:59-64 | each later schedule word is one modular sum of four earlier ones, two of them mixed |
| ShaFunctions.RoundSums256 | src/core/crypto.cpp:69-80 | a round moves six variables one place and sets the other two to modular sums of the old ones |
| ShaFunctions.StepFunction | src/core/crypto.cpp:173-177 | the bits of the SHA-1 step function: choice, exclusive or, majority, exclusive or, twenty steps each |
| ShaFunctions.ScheduleBits1 | src/core/crypto.cpp:166-167 | each bit of a later SHA-1 schedule word is the exclusive or of the bits below it in four earlier words |
| ShaFunctions.RoundSums1 | src/core/crypto.cpp:171-181 | a SHA-1 round moves three words, turns one by 30 bits and sets the first to a modular sum |
| ShaSpec.PaddingInjective | src/core/crypto.cpp:118-134 | padded messages of less than 2^61 bytes are equal only when the messages are |
| ShaSpec.CompressAllConcat | src/core/crypto.cpp:96-116 | compressing a concatenation at a block boundary is compressing on |
| Sha.Compress256 | src/core/crypto.cpp:49-84 | the in-place compression with its 64-word schedule is that of section 6.2.2 of FIPS 180-4 |
| Sha.Compress1 | src/core/crypto.cpp:156-184 | the in-place compression is that of section 6.1.2 of FIPS 180-4 |
| Words.LoadBE32Joins | src/core/crypto.cpp:54-58 | joining the four shifted bytes with or is the big-endian word |
| WordBits.RotrBit | src/core/crypto.cpp:49 | bit i of a word rotated right by n is bit i + n, counted around |
| WordBits.RotlBit | src/core/crypto.cpp:156 | bit i of a word rotated left by n is bit i - n, counted around |
| Sha.StepConstants | src/core/crypto.cpp:173-177 | the code's function, joined with or, and constant of each step are those of sections 4.1.1 and 4.2.1, whose Ch and Maj are exclusive ors |
| Sha.ChooseJoins | src/core/crypto.cpp:174 | choosing with or is Ch with exclusive or, because no bit is chosen twice |
| Sha.MajorityJoins | src/core/crypto.cpp:176 | the or of the three pairs is their exclusive or |
| Sha.ZerosUntil56 | src/core/crypto.cpp:125-126 | one-byte zero updates reach byte 56 of a block for the first time after exactly the padding's zeros |
| Sha.BitLength | src/core/crypto.cpp:120 | the bit length taken from the wrapping counter is the length field of the padding |
| Sha.Context.constructor | src/core/crypto.cpp:86-94 | the initial state, nothing absorbed |
| Sha.Context.Update | src/core/crypto.cpp:96-116 | whatever the chunks, the message is their concatenation (the same code at 195-215 for SHA-1) |
| Sha.Context.Final | src/core/crypto.cpp:118-142 | the result is the digest of everything updated; the padding never reaches the length field (217-241 for SHA-1) |
| Sha.Hash | src/core/crypto.cpp:144-150 | the one-shot form agrees |
| Hkdf.HmacSha256 | src/core/crypto.cpp:639-677 | HMAC for keys shorter than, equal to and longer than a block |
| HkdfSpec.HmacMasks | src/core/crypto.cpp:645-672 | the inner hash runs under the key, hashed if longer than a block, combined with 0x36, the outer one under it combined with 0x5c; beyond the key the masks stand alone |
| Hkdf.HkdfExtract | src/core/crypto.cpp:679-690 | a missing or empty salt counts as 32 zero bytes |
| HkdfSpec.StreamPrefix | src/core/crypto.cpp:725-740 | fewer blocks are a prefix of more blocks |
| HkdfSpec.OkmPrefix | src/core/crypto.cpp:699-745 | a shorter request is a prefix of a longer one |
| HkdfSpec.OkmBlock | src/core/crypto.cpp:725-740 | each 32 bytes of the output are the HMAC of the 32 before them, the info and their number |
| Hkdf.Expand | src/core/crypto.cpp:699-745 | refuses exactly more than 255 * 32 bytes and infos whose block cannot be allocated, and otherwise writes the prefix of T(1) T(2) ... of section 2.3 of RFC 5869, for every info the working block can hold; the counter never repeats |
| Hkdf.CapacityExact | src/core/crypto.cpp:707-721 | the working block, sized in 32 bits, holds everything laid out in it if and only if the info is shorter than 2^32 - 33 bytes |
| Hkdf.Fill | src/core/crypto.cpp:727-730 | previous block, info and counter laid out within a block of sufficient size |
| KdfLabelSpec.ReadWritten | src/core/crypto.cpp:755-773 | reading what was written gives the value back, whatever follows, if and only if it is below 2^30 |
| KdfLabelSpec.VarintCollision | src/core/crypto.cpp:755-773 | a value above the limit that is written like one below it |
| KdfLabelSpec.VarintPrefixFree | src/core/crypto.cpp:748-773 | below the limit no encoding is the start of another |
| KdfLabelSpec.VectorPrefixFree | src/core/crypto.cpp:812-817 | length-prefixed strings can be read off the front of anything |
| KdfLabelSpec.LabelReads | src/core/crypto.cpp:808-817 | read back, the label is a big-endian length, a string that begins with "MLS 1.0 " and goes on with the label, and the context, and nothing more |
| KdfLabelSpec.LabelInjective | src/core/crypto.cpp:783-822 | the serialised label determines length, label and context |
| KdfLabel.VarintWrite | src/core/crypto.cpp:755-773 | writes exactly the announced size and nothing else |
| KdfLabel.Serialise | src/core/crypto.cpp:788-817 | the bytes written fill exactly the size computed beforehand; fails exactly when that is 2^31 or more |
| KdfLabel.NeedExact | src/core/crypto.cpp:790-806 | what is laid out stays inside the block, sized in 32 bits, if and only if it is less than 2^32 bytes or the wrapped size cannot be allocated |
| KdfLabel.ExpandWithLabel | src/core/crypto.cpp:783-822 | the label fed to HKDF-Expand, refused exactly when the output is too long or one of the two blocks cannot be allocated |
| Base64Spec.DecodesUnique | src/core/crypto.cpp:302-325 | a text decodes to one byte string |
| Base64Spec.StandardAlphabet | src/core/crypto.cpp:255-300 | the character of each value and the value of each character are those of the standard alphabet |
| Base64Spec.RoundTrip | src/core/crypto.cpp:257-325 | any decoding of any encoding of data is the data |
| Base64.Encode | src/core/crypto.cpp:257-290 | appends standard-alphabet characters that spell the data, zero-filled to six bits and filled with '=' to fours, as far as the buffer can hold them; complete whenever they fit |
| Base64.GroupsEnd | src/core/crypto.cpp:263-271 | the group loop with its 32-bit index comes to an end if and only if the length is not 2^32 - 1 |
| Base64.FittingEnds | src/core/crypto.cpp:260-271 | an encoding that fits the buffer is always arrived at |
| GrowingBuffer.GrowthEnds | src/system/alghoritms/ubuffer.cpp:37-38 | doubling a capacity in 32 bits reaches a size if and only if it is at most 2^31 |
| GrowingBuffer.Grow | src/system/alghoritms/ubuffer.cpp:37-38 | the doubled capacity, up to the 2^31 that cannot be allocated |
| GrowingBuffer.Buffer.Reserve | src/system/alghoritms/ubuffer.cpp:32-46 | the capacity reaches what was asked for up to 2^30 and stays as it was beyond |
| GrowingBuffer.Buffer.Append | src/system/alghoritms/ubuffer.cpp:63-68 | a byte more, or nothing once 2^30 - 1 are held |
| GrowingBuffer.KeptExactly | src/system/alghoritms/ubuffer.cpp:63-68 | everything is kept if and only if it is less than 2^30 bytes |
| GrowingBuffer.FullGainsNothing | src/system/alghoritms/ubuffer.cpp:63-68 | a full buffer gains nothing and loses whatever is appended |
| Base64.ShiftedBits | src/core/crypto.cpp:316-317 | the unmasked 32-bit accumulator: its low bits stay the pending bits, older ones fall off harmlessly |
| Base64.TopByteBits | src/core/crypto.cpp:318-322 | the byte taken out is the oldest eight pending bits |
| Base64.Decode | src/core/crypto.cpp:302-325 | succeeds exactly on acceptable text, of the given length or up to its terminator, and appends the bytes spelt by its acceptable front as far as the buffer can hold them |
| Base64.EncodeThenDecode | src/core/crypto.cpp:257-325 | decoding what was encoded appends exactly the data, when both results fit |
| DerSpec.ContentMinimal | src/core/crypto.cpp:1167-1182 | each INTEGER is the shortest non-negative form of the same number |
| DerSpec.AlignedContent | src/core/crypto.cpp:1214-1223 | right-aligning the content in 32 bytes undoes the stripping and the padding |
| DerSpec.RoundTrip | src/core/crypto.cpp:1185-1227 | every 64-byte pair encodes to 8 to 72 bytes that parse back to it |
| DerSpec.ParsesUnique | src/core/crypto.cpp:1197-1227 | a signature parses in one way |
| DerSpec.Canonical | src/core/crypto.cpp:1197-1227 | re-encoding an accepted signature gives the same bytes if and only if both integers are minimal |
| DerSpec.NotCanonical | src/core/crypto.cpp:1197-1227 | accepted signatures that are not minimal: a superfluous leading zero, and a negative integer |
| Der.EncodeInt | src/core/crypto.cpp:1167-1182 | writes that INTEGER, at most 35 bytes |
| Der.EncodeSignature | src/core/crypto.cpp:1185-1195 | writes the signature and its length |
| Der.ReadInt | src/core/crypto.cpp:1205-1219 | reads an integer exactly when one of at most 32 significant bytes stands there |
| Der.DecodeSignature | src/core/crypto.cpp:1197-1227 | succeeds exactly on parsable input and returns both numbers right-aligned; a refusal leaves exactly the halves behind that an integer was read for |
| Der.EncodeThenDecode | src/core/crypto.cpp:1185-1227 | the round trip through the code |
| RingSpec.FitsExactly | src/audio/audio.cpp:131-138 | when samples fit behind an overrun's leftovers, for even and odd fill |
| RingSpec.DroppedLeast | src/audio/audio.cpp:131-138 | an overrun costs less than a frame more than the ring is short of: the fewest whole frames that make room, everything paired only where the queue holds fewer, and nothing when the samples fit |
| RingSpec.RampsNeverLouder | src/audio/audio.cpp:216-240 | neither ramp ever makes a sample louder |
| RingSpec.RampsStraight | src/audio/audio.cpp:216-240 | over the shorter of 96 samples and the delivery each sample is within one of its share of a straight line, and beyond it nothing changes |
| RingSpec.ShortfallEdge | src/audio/audio.cpp:228-246 | the sample before a shortfall's silence is zero, whatever came before, if and only if the call had something to take |
| RingSpec.UnrampedEdge | src/audio/audio.cpp:224-246 | two calls that step from full level to silence |
| RingSpec.UnrampedRun | src/audio/audio.cpp:120-249 | a run from an empty ring whose output steps from any level to silence |
| RingSpec.ShortfallsInRuns | src/audio/audio.cpp:185-249 | in any run, the silence of any shortfall follows a zero sample if and only if something was queued or the output before it ended in zero |
| RingSpec.RunConserves | src/audio/audio.cpp:120-249 | over any run, samples mixed in are taken, dropped or still queued, in order |
| RingSpec.WaitingIsSilent | src/audio/audio.cpp:191-202 | a stopped ring delivers only silence until the cushion is queued |
| RingSpec.ResumesFromSilence | src/audio/audio.cpp:191-246 | after a shortfall: silence throughout, nothing before the cushion is full, and then a first sample of zero |
| Ring.Ring.constructor | src/audio/audio.cpp:62-72 | an empty queue in a silent ring |
| Ring.Ring.Available | src/audio/audio.cpp:83-89 | the fill from the two positions, also when the writer has wrapped |
| Ring.Ring.TakeCell | src/audio/audio.cpp:173-175 | takes the head and leaves silence in its cell |
| Ring.Ring.Pop | src/audio/audio.cpp:163-179 | all or nothing from the front; unoccupied cells stay silent if they were |
| Ring.Ring.Overrun | src/audio/audio.cpp:131-146 | drops the documented amount and silences the cells passed |
| Ring.Ring.AddCell | src/audio/audio.cpp:151-154 | the clamped addition into a cell, which on a silent cell is plain storing |
| Ring.Ring.Mix | src/audio/audio.cpp:120-161 | adding into the ring is appending to the queue behind the overrun, exactly when the samples fit, and unoccupied cells then stay silent; in every case each cell holds the clamped sum of what the overrun left and the samples that came round to it |
| Ring.LandedOnce | src/audio/audio.cpp:148-159 | while no cell is met twice, each holds its old value and its one sample, clamped |
| Ring.Ring.PopPadded | src/audio/audio.cpp:185-249 | the cushion, the ramps at a shortfall and after one, the silence and the new state |
| Ring.RampUp | src/audio/audio.cpp:216-222 | the in-place rise is the fade-in of the definition |
| Ring.RampDown | src/audio/audio.cpp:233-241 | the in-place fall is the fade-out of the definition |
| Ring.Play | src/audio/audio.cpp:120-249 | any run of paired operations on a ring delivers what the run on the queue delivers, unoccupied cells are silent and both positions even throughout |
| Ring.Ring.Push | src/audio/audio.cpp:91-118 | overwriting is appending behind the overrun, exactly when the samples fit, whatever the cells held |
| Ring.Ring.DropSamples | src/audio/audio.cpp:253-261 | drops an even number of the oldest samples |
| Ring.Ring.TrimCapture | src/audio/audio.cpp:795-806 | whole frames go until less than a frame is queued beyond the cushion, and nothing else |
| Ring.Capture | src/audio/audio.cpp:91-118 | any run of pushes, pops, drops and trims on a ring is that run on the queue, whatever the cells behind it hold |
| RingSpec.CaptureInOrder | src/audio/audio.cpp:91-118 | over any such run what is handed over and then still queued are, in order, among what was queued before and pushed since |
| Ring.Ring.Clear | src/audio/audio.cpp:855-866 | everything but the newest part of a frame goes, and the cells passed are silent |
| Limiter.SqueezedMonotone | src/audio/audio.cpp:582-583 | the rounded quotient never decreases |
| Limiter.SoftShape | src/audio/audio.cpp:578-586 | the knee is odd, the identity up to 28000, never louder than its input and strictly inside 16 bits |
| Limiter.SoftMonotone | src/audio/audio.cpp:578-586 | louder in is never quieter out |
| Limiter.CeilingReached | src/audio/audio.cpp:578-586 | 32766 is reached, exactly by inputs from 22747522 on |
| Limiter.Render | src/audio/audio.cpp:572-589 | the buffer is limited in place without the cast changing a value, and the level is that of the loudest sample and below 10000 |
| Mp3Spec.ShortOnlyAtTheEnd | src/audio/mp3.cpp:151-195 | a read is short only when the file is over and nothing waits, for any resampler |
| Mp3Spec.TurnProgresses | src/audio/mp3.cpp:177-190 | with a streaming resampler the branch that throws waiting samples away is never taken |
| Mp3Spec.ReadSplit | src/audio/mp3.cpp:151-195 | reading a and then b frames is reading a + b, from any state and with any decoder, without a resampler and with any that is seamless in every state |
| Mp3Spec.ReadDrains | src/audio/mp3.cpp:157-191 | a read draws what it can from the samples waiting and goes on from there |
| Mp3Chunking.ChunkingExact | src/audio/mp3.cpp:75-195 | over every file, behind a decoder that gives what it has, no way of cutting the reads of a stream just opened shows, if and only if the resampler, from the state it is built in, is seamless |
| Mp3Chunking.SeamlessReads | src/audio/mp3.cpp:151-195 | seamless from its present state is enough at the beginning of any buffer, also after a seek |
| Mp3Chunking.ReadsJoin | src/audio/mp3.cpp:151-195 | reads that join two at a time join in any number |
| Mp3Chunking.FirstBuffer | src/audio/mp3.cpp:157-191 | a buffer that is not seamless is a file in which a cut shows |
| Mp3Chunking.NextBuffer | src/audio/mp3.cpp:157-191 | if no cut shows with a resampler, none shows with what it is after any full buffer |
| Mp3Spec.StreamingSeamless | src/audio/mp3.cpp:175-190 | a resampler that stops only for lack of input or room, makes nothing from nothing and fills a room in two goes as in one is seamless |
| Mp3Spec.CopyStreams | src/audio/mp3.cpp:165-174 | the straight copy streams |
| Mp3Resamplers.DoublingStreams | src/audio/mp3.cpp:175-190 | so does a resampler to twice the rate that may stop halfway through a frame |
| Mp3Resamplers.OneFrameSeamless | src/audio/mp3.cpp:175-190 | a resampler that moves one frame a call is seamless though it does not stream |
| Mp3Resamplers.HonestIsNotEnough | src/audio/mp3.cpp:75-195 | a resampler that only keeps to its lengths makes the cuts audible in a file of two frames that was just opened: reading one frame is not the start of reading two |
| Mp3Spec.ReadTakes | src/audio/mp3.cpp:151-195 | without a resampler a read takes the front of what is left and leaves the rest |
| Mp3Spec.FutureIsTheFile | src/audio/mp3.cpp:48-72 | the refills of a decoder that gives what it has are together the rest of the file as stereo |
| Mp3Spec.StereoSplit | src/audio/mp3.cpp:22-45 | stereo of two stretches is stereo of the whole, for any number of channels |
| Mp3Spec.SeekLands | src/audio/mp3.cpp:197-205 | a seek, computed in 64 bits, stays inside the file and inside 64 bits and lands on the last frame not after the moment asked for |
| Mp3Spec.SeekThenRead | src/audio/mp3.cpp:197-232 | in a 48 kHz file a read after a seek delivers the file's own frames from there on, the frame clamped to the length the code computes |
| Mp3Spec.DurationExact | src/audio/mp3.cpp:106-107 | the length computed for a 48 kHz file is its length if and only if that times 48000 stays below 2^64 |
| Mp3Spec.ChunksAreOneRead | src/audio/mp3.cpp:255-268 | collecting in chunks of 1024 is one read of the whole room |
| Mp3Spec.MonoUndoesStereo | src/audio/mp3.cpp:264-265 | averaging the doubled channel gives the channel back, negative samples included |
| Mp3Spec.MiddleAverages | src/audio/mp3.cpp:264-265 | a folded sample is within half of the mean of the two, towards zero, and the two count alike |
| Mp3Spec.CollectsFile | src/audio/mp3.cpp:234-277 | the chunks of a 48 kHz file of less than 2^30 - 64 frames are the whole file as stereo |
| Mp3Spec.DecodesToMiddles | src/audio/mp3.cpp:234-277 | such a file with any number of channels decodes to one sample a frame, the mean of the frame's first two channels towards zero |
| Mp3Spec.DecodesMonoFile | src/audio/mp3.cpp:234-277 | a mono 48 kHz file of less than 2^30 - 64 frames decodes to exactly its own samples, which can be allocated |
| Mp3.ToStereo | src/audio/mp3.cpp:22-45 | the three branches all compute the front pair of every frame |
| Mp3.Stream.constructor | src/audio/mp3.cpp:96-130 | the opened stream |
| Mp3.Stream.Refresh | src/audio/mp3.cpp:48-72 | one refill; on success the decoder has moved on, on failure the file is over |
| Mp3.Stream.Move | src/audio/mp3.cpp:161-191 | one turn of the loop, copying or resampling, which always uses waiting samples or fills room; the resampler keeps its new state even when the samples are thrown away |
| Mp3.Stream.Fill | src/audio/mp3.cpp:151-195 | the loop ends, by decoder left, samples waiting and room left in that order, and delivers what the state machine delivers |
| Mp3.Stream.Seek | src/audio/mp3.cpp:197-232 | the stream stands where one sought to that frame stands, with a new resampler if it had one and one could be built |
| Mp3.DecodeAllMono | src/audio/mp3.cpp:234-277 | the chunks folded to mono, failing exactly when there are none or the samples, their size cut to 32 bits, cannot be allocated |
| Mp3.Collect | src/audio/mp3.cpp:255-268 | the loop over chunks, its room taken as a signed 32-bit number |
| Lang.HashOf | src/core/lang.cpp:15-27 | the loop is the 32-bit FNV-1a hash |
| Lang.HashExample | src/core/lang.cpp:15-27 | the published values for the empty string and for "a" |
| Lang.FirstMatchAt | src/core/lang.cpp:90-91 | linear search finds the first entry with the text |
| Lang.NoneBeyond | src/core/lang.cpp:84-94 | past the run that shares the hash there is no entry with the text |
| Lang.Look | src/core/lang.cpp:67-100 | over a sorted table binary search and the walk over a run agree with linear search, duplicates and collisions included; over any table the result is the argument or a translation of it |
| Lang.Language.Current | src/core/lang.cpp:47-51 | asks for the choice once |
| Lang.Language.Tr | src/core/lang.cpp:67-100 | Russian in, the chosen language out; with Russian chosen the argument itself, and an empty text for none |
| Lang.ChoiceSurvives | src/core/lang.cpp:39-60 | a stored choice is the next process's choice |

## Left out

- Devices, threads, locks and events of `src/audio/audio.cpp`: operations are modelled as undisturbed sequential calls.
- Allocations that fail although their size is positive, and the branches that only those reach.
- Input and output buffers that overlap, in the ciphers and in AES-GCM: inputs are values here.
- Wiping secrets from memory, and timing.
- `random_bytes`, P-256 and ECDH: system calls and code of another file.
- Confidentiality and forgery: only functional correctness is stated.
- `mls_expand_with_label`, `mls_derive_secret`, `hkdf_expand` and the `aes256gcm_*` wrappers only fix arguments of modelled functions.
- The loopback ring, the voice-activity hold counter, the noise gate and `offline.cpp`: smaller copies of modelled machines.
- `write_media` and `write_stream`: `mix` behind a check for a non-empty argument.
- GcmSpec.TextMeets: for nonces of 12 bytes; for the others `GcmSpec.CryptByte`, `GcmSpec.CounterBytes` and `GcmSpec.CountersDistinct` say which blocks the text meets.
- Gcm.Run: nonce, additional data and text are shorter than 2^32 bytes, the width of the code's length arguments.
- XChaChaPoly.Encrypt: additional data and text are shorter than 2^32 bytes, the width of the code's length arguments.
- KdfLabel.Serialise: stated for labels that stay inside their block, the exact condition of `KdfLabel.NeedExact`; others are not modelled.
- Hkdf.Expand: stated for infos shorter than 2^32 - 33 bytes, the exact condition under which the working block suffices (`Hkdf.CapacityExact`); longer ones are not modelled.
- KdfLabelSpec.LabelInjective: for output lengths below 2^16, which is the width of the length field; HKDF refuses larger ones anyway.
- KdfLabelSpec.LabelReads: for strings shorter than 2^30 bytes, where a length can be read back (`KdfLabelSpec.ReadWritten`).
- Base64.Encode: stated for lengths and fills at which the code comes to an end (`Base64.Ends`).
- Base64.Decode: a text without a length has its terminator; terminators beyond 2^31 characters, where the code's `int` length wraps, are not modelled.
- Ring.Ring.Mix: a call brings at most 2^31 - 1920 samples, beyond which rounding up to frames leaves the code's 32-bit type.
- Ring.Ring.Push: the same bound.
- Ring.Play: the cell-clearing operations only; `drop_samples` leaves cells uncleared and, as in the code, is used on the capture ring alone.
- Limiter.Render: the gain is an arbitrary function from samples to 32-bit integers above -2^31; the floating-point product and the tap behind the loop are not modelled.
- Mp3.Open: parsing the file and the failure of the decoder to open it are not modelled.
- Mp3.Stream.Fill: a read asks for at most 2^30 frames, beyond which the code's `int` index into the output overflows; channel counts are unbounded.
- Mp3Spec.ReadSplit: with a resampler it is stated for one that is seamless in every state, because the decoder is arbitrary; the exact condition is `Mp3Chunking.ChunkingExact`, and that speexdsp's resampler meets it is not shown.
- Mp3Spec.DecodesToMiddles: for 48 kHz files of less than 2^30 - 64 frames behind a decoder that gives what it has; at other rates the samples folded are the resampler's (`Mp3Spec.MiddleAverages` holds for them too).
- Lang.Look: that the generated table is sorted and hashed correctly is the condition, not a result; the table's contents are not modelled.
