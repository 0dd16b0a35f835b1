# AMP protocol core: a Dafny model

The AMP SDK is a REST and WebSocket client around a byte-level protocol core. The core exists twice: in the C++ SDK
(`src/`, `include/`) and, again, inside the Unreal plugin (`AmpUnreal/`, called AmpCore). Both must compute the same
bytes, because players sign them. This project models that core and the codecs beside it, and proves what they are for.

`dafny verify dfyconfig.toml` checks everything.

| module | models |
|---|---|
| `Fips202`, `KeccakRefinement` | KECCAK of FIPS 202 on bit strings, and the proof that the code computes it |
| `Words`, `KeccakF`, `KeccakInverse` | 64-bit lanes as bits, the five step mappings, and their inverses |
| `KeccakAbsorb`, `KeccakSponge` | the in-place permutation over `state[5][5]` and the byte-at-a-time sponge |
| `Ecdsa` | low-s normalization, the recovery-id search, the 65-byte signature, in the SDK and in the bridge |
| `Bytes`, `Results`, `Numbers`, `Hex`, `Messages` | decimal, big-endian and hex text, EIP-191, exit certificates, commit hashes |
| `StringMap`, `Eip712`, `LadderSdk`, `LadderCore` | `std::map`, the reference EIP-712 encoding of a ladder, and its two implementations |
| `Text`, `Json`, `JsonSyntax` | substring search, the JSON builder and the extractor, and the grammar of RFC 8259 |
| `WebSocket`, `Base64`, `Chunked` | frames over a connection that delivers bytes in pieces, the handshake key's encoding, HTTP chunks |
| `WaitForMatch` | the race between push, poll replies and timeout |

How to read it. Code that works in steps is a method, with the source's loops, over arrays, objects or growing text; its
`ensures` ties it to a function, and the lemmas are about that function and a definition made independently of it: the
bit-level standard (Keccak), the verification equation (ECDSA), the typed EIP-712 encoding, a decoder (hex, base64,
frames, chunks, JSON), the trace of events (wait). A hash function is a parameter `h` in the encoders, so their
results hold for every hash, Keccak-256 included. Binding is a reduction: equal digests mean equal inputs, or an explicit pair
of different preimages with one hash. `WellFormed` ladders have `0x` and 40 hex digits per address, 66-character hash
fields and 64-bit numbers.

What the proofs say about the code:

- The two ladder encoders do not agree beyond ten placements: AmpCore iterates a map sorted by `placement<i>`, so
  `placement10` comes third. `AmpUnreal/README.md:140` promises byte-for-byte equality. `EncodersAgree` has the exact
  condition, `DigestsAgreeIff` carries it to the digests, and
  `ElevenPlacementsDisagree` shows a failing family.
- `private_key_signer.hpp:5` promises v in {27, 28}. The SDK gives 29 or 30 when R.x is at least n; there the bridge
  fails instead. `SigningOutcome` has the exact condition, `HighSignature` examples.
- `getString` can read the wrong member: a value that ends, after its last quote, in the wanted key diverts the search.
  `GetStringIsRight` has the exact condition, `GetStringMisreads` an example.
- It also takes backslash-b and backslash-f for letters and keeps the low byte of codes above 255 (`ReadsWhatIsDenoted`).
- `0X` is a prefix for AmpCore and a zero byte for the SDK (`CoreDecodesPrefix`, `SdkPrefixes`).
- An exit certificate shares its text with another exactly if its match id or its state hash contains the lines that
  stand between the two (`ExitCertAmbiguousIff`).
- The dechunking loop never ends exactly if it comes back to a cursor (`EndlessIff`), for which a size must wrap the
  cursor back (`EndsUnlessWrappingBack`); `WrapRepeats` is an example.
- `AmpCore.cpp:200` describes a hash of a hash for the array; the code hashes once, as EIP-712 asks, and so does the model.
- `WaitForMatch`: after a failed activation `bDone` stays false, and only the absence of timers and binding keeps the
  node silent.

## Model

| member | source | states |
|---|---|---|
| KeccakF.ThetaIsFips | AmpUnreal/Source/AmpUnreal/Private/AmpCore/Keccak256.cpp:56-66 | theta of the code, bit by bit, is section 3.2.1 of FIPS 202: each bit XORed with the parities of column x-1 and of column x+1 one bit lower |
| KeccakF.OffsetIsFips | AmpUnreal/Source/AmpUnreal/Private/AmpCore/Keccak256.cpp:96-102 | every entry of `ROTATION` is the triangular number, modulo 64, that the walk of section 3.2.2 reaches at that lane, and the walk reaches every lane but the origin |
| KeccakF.RhoPiIsFips | AmpUnreal/Source/AmpUnreal/Private/AmpCore/Keccak256.cpp:68-73 | scattering rotated lanes to `b[y][2x+3y]` is rho followed by pi as FIPS 202 reads them from the target bit |
| KeccakF.PiIsPermutation | AmpUnreal/Source/AmpUnreal/Private/AmpCore/Keccak256.cpp:70-73 | the lane move of pi and the index map that reads it back are inverse, so no lane of `b` is written twice or missed |
| KeccakF.ChiIsFips | AmpUnreal/Source/AmpUnreal/Private/AmpCore/Keccak256.cpp:75-79 | chi, bit by bit, is section 3.2.4 |
| KeccakF.LfsrIsFips | AmpUnreal/Source/AmpUnreal/Private/AmpCore/Keccak256.cpp:81-85 | after any number of steps the 8-bit register holds the register of Algorithm 5, whose 9-bit feedback `0x171` stands for |
| KeccakF.RoundConstantIsFips | AmpUnreal/Source/AmpUnreal/Private/AmpCore/Keccak256.cpp:81-85 | bit z of the constant collected in a round is rc(j + 7 ir) when z = 2^j - 1 and zero elsewhere (Algorithm 6) |
| KeccakF.IotaIsFips | AmpUnreal/Source/AmpUnreal/Private/AmpCore/Keccak256.cpp:81-85 | iota changes lane (0,0) only, by those bits |
| KeccakInverse.ThetaBijective | AmpUnreal/Source/AmpUnreal/Private/AmpCore/Keccak256.cpp:56-66 | theta is undone from both sides by an explicit inverse: column parities, a cofactor matrix, and the inverse of the polynomial 1 + R + R^4 in the one-bit rotation R |
| KeccakInverse.RhoPiBijective | AmpUnreal/Source/AmpUnreal/Private/AmpCore/Keccak256.cpp:68-73 | rho and pi together are a bijection on states |
| KeccakInverse.ChiBijective | AmpUnreal/Source/AmpUnreal/Private/AmpCore/Keccak256.cpp:75-79 | chi is a bijection on states |
| KeccakInverse.RoundBijective | AmpUnreal/Source/AmpUnreal/Private/AmpCore/Keccak256.cpp:55-86 | every round, whatever its index, is a bijection on the 1600-bit state |
| KeccakInverse.PermuteBijective | AmpUnreal/Source/AmpUnreal/Private/AmpCore/Keccak256.cpp:52-87 | the 24 rounds have a two-sided inverse |
| KeccakAbsorb.ColumnParities | AmpUnreal/Source/AmpUnreal/Private/AmpCore/Keccak256.cpp:57-61 | the accumulation loop leaves the five column parities |
| KeccakAbsorb.ThetaStep | AmpUnreal/Source/AmpUnreal/Private/AmpCore/Keccak256.cpp:56-66 | the in-place double loop turns the state array into theta of the old one |
| KeccakAbsorb.ScatterSheet | AmpUnreal/Source/AmpUnreal/Private/AmpCore/Keccak256.cpp:71-72 | one outer turn writes five lanes of `b`, one in each sheet, and no other |
| KeccakAbsorb.RhoPiStep | AmpUnreal/Source/AmpUnreal/Private/AmpCore/Keccak256.cpp:68-73 | the filled `b` is rho and pi of `a`, which is unchanged |
| KeccakAbsorb.ChiStep | AmpUnreal/Source/AmpUnreal/Private/AmpCore/Keccak256.cpp:75-79 | `a` becomes chi of `b` |
| KeccakAbsorb.IotaStep | AmpUnreal/Source/AmpUnreal/Private/AmpCore/Keccak256.cpp:81-85 | seven register steps add the round constant of round `ir`, and hand the register on to the next round |
| KeccakAbsorb.Absorb | AmpUnreal/Source/AmpUnreal/Private/AmpCore/Keccak256.cpp:52-87 | the whole in-place function computes the 24-round permutation of the old state |
| KeccakSponge.AbsorbByte | AmpUnreal/Source/AmpUnreal/Private/AmpCore/Keccak256.cpp:24-27 | XORing a message byte at `blockOff` extends the XORed bit string by the bits of that byte |
| KeccakSponge.AbsorbPadding | AmpUnreal/Source/AmpUnreal/Private/AmpCore/Keccak256.cpp:35-40 | the bytes 0x01 and 0x80 are pad10*1 with no domain suffix, also where both fall on one byte and where the padding fills a block of its own |
| KeccakSponge.Squeeze | AmpUnreal/Source/AmpUnreal/Private/AmpCore/Keccak256.cpp:44-48 | the 32 bytes written are the first 256 bits of the state in order |
| KeccakSponge.OutputBit | AmpUnreal/Source/AmpUnreal/Private/AmpCore/Keccak256.cpp:44-48 | bit k of output byte i is bit 8i+k of the state string |
| KeccakSponge.GetHash | AmpUnreal/Source/AmpUnreal/Private/AmpCore/Keccak256.cpp:18-49 | for every message of every length the loop computes the sponge defined on bits: pad, split into 1088-bit blocks, XOR and permute from the zero state, take 256 bits |
| KeccakRefinement.RoundCount | AmpUnreal/Source/AmpUnreal/Private/AmpCore/Keccak256.h:24 | the number of rounds is 12 + 2l for lanes of 2^l = 64 bits (section 3.4) |
| KeccakRefinement.PermuteIsFips | AmpUnreal/Source/AmpUnreal/Private/AmpCore/Keccak256.cpp:52-87 | on every state the 24 rounds are KECCAK-f[1600] of FIPS 202, defined apart on bits: the five step mappings in the order of section 3.3, with the round constants and offsets of its algorithms |
| KeccakRefinement.Keccak256IsFips | AmpUnreal/Source/AmpUnreal/Private/AmpCore/Keccak256.cpp:18-49 | for every message the hash is, bit for bit, KECCAK[512](M, 256) of FIPS 202: pad10*1, rate 1600 - 512, the permutation, truncation |
| Ecdsa.VerifyPointEquation | include/amp/signers/private_key_signer.hpp:131-137 | sR = eG + rQ holds for exactly one point, the one the verifier computes; this is the equation the recovery formula solves |
| Ecdsa.NormalizedVerifies | include/amp/signers/private_key_signer.hpp:160-169 | the normalized s is positive and at most n/2, and the signature still verifies |
| Ecdsa.NormalizationFlipsParity | include/amp/signers/private_key_signer.hpp:171-178 | replacing s by n - s flips the low bit of the recovery id and nothing else, so searching against the low s needs no later correction |
| Ecdsa.MatchesExactlyRecoveryId | include/amp/signers/private_key_signer.hpp:118-142 | of the four recovery ids exactly one matches the key, for every valid signature: the one of R, with bit 1 set when R.x is at least n |
| Ecdsa.FindRecoveryId | include/amp/signers/private_key_signer.hpp:118-142 | the loop returns the first matching id below `limit`, or -1, skipping ids whose candidate is not on the curve |
| Ecdsa.FirstMatchIsUnique | AmpUnreal/Source/AmpUnreal/Private/AmpCoreBridge.cpp:119-133 | among the ids from any start below `limit`, the loop finds the one recovery id if it lies there, and otherwise -1 |
| Ecdsa.SignDigest | include/amp/signers/private_key_signer.hpp:150-190 | normalization, search, layout and hex text, with the three error exits: a digest of another size than 32, a signing primitive that fails, and no matching id |
| Ecdsa.SigningOutcome | AmpUnreal/Source/AmpUnreal/Private/AmpCoreBridge.cpp:141-177 | for every valid signature the SDK succeeds with the low s and the one matching id, so that the key is recovered; the two-candidate bridge gives the same bytes exactly when R.x < n, which is exactly when v is 27 or 28, and fails otherwise |
| Ecdsa.SigningFails | include/amp/signers/private_key_signer.hpp:150-178 | it fails if and only if the digest has another length than 32, the primitive fails, or no id below the limit matches |
| Ecdsa.SignatureLayout | include/amp/signers/private_key_signer.hpp:180-183 | the 65 bytes are r and s as 32 big-endian bytes each and 27 + id, and all three can be read back |
| Ecdsa.ToyIsCurve | include/amp/signers/private_key_signer.hpp:102-148 | the assumptions on the foreign curve operations hold of a concrete group with points whose x exceeds the order, hence do not contradict each other |
| Ecdsa.HighSignature | AmpUnreal/Source/AmpUnreal/Private/AmpCoreBridge.cpp:119-165 | concrete signatures with R.x at least n: the SDK returns v = 29 and, for the other parity, v = 30, and the bridge fails |
| Numbers.ParseUint64 | AmpUnreal/Source/AmpUnreal/Private/AmpCore/AmpCore.cpp:135-144 | the mathematical value of every non-empty digit string below 2^64, the fallback for every other string: the division guard is exact |
| Numbers.ParseOrZero | src/crypto/crypto.cpp:134-144 | the same of the copy with a flag and `break`, with fallback zero |
| Numbers.DecIsUint64 | src/crypto/crypto.cpp:266 | parsing the printed form of a 64-bit value gives the value back |
| Numbers.SignedValueOfDecInt | src/crypto/crypto.cpp:64 | a printed number, negative or not, reads back as itself |
| Numbers.BigEndianAt | src/crypto/crypto.cpp:74-78 | byte i from the right is the value shifted by i bytes |
| Numbers.NumeralConverts | src/crypto/crypto.cpp:31 | the library conversions accept blanks, a sign, a 0x or 0X and hexadecimal digits, whatever follows |
| Numbers.ConvertsOnlyNumerals | src/http_client.cpp:203 | and no other text |
| Numbers.StoUllIs | src/http_client.cpp:203 | out of range from 2^64 on, negated modulo 2^64 by a minus sign, else the value |
| Numbers.ToWord32 | AmpUnreal/Source/AmpUnreal/Private/AmpCore/AmpCore.cpp:114-119 | the shift loop stores the 32-byte big-endian word of the value |
| Numbers.Word32RoundTrip | src/crypto/crypto.cpp:96-102 | that word read as a big-endian number is the value |
| Hex.SdkToHex | src/crypto/crypto.cpp:17-24 | the stream formatting prints exactly the two-digit lower-case text of every byte |
| Hex.CoreToHex | AmpUnreal/Source/AmpUnreal/Private/AmpCore/AmpCore.cpp:30-40 | the nibble table prints the same text |
| Hex.SdkFromHex | src/crypto/crypto.cpp:26-34 | what the loop over `std::stoul` returns or throws, on any string, including its leniency about blanks, signs and `0x` inside a pair |
| Hex.CoreFromHex | AmpUnreal/Source/AmpUnreal/Private/AmpCore/AmpCore.cpp:51-62 | the prefix is dropped and pairs are decoded up to the first bad one, on any string |
| Hex.HexDigitIs | AmpUnreal/Source/AmpUnreal/Private/AmpCore/AmpCore.cpp:44-49 | the hexadecimal digits are those of both cases, with the place of the lower case as value |
| Hex.CaseDoesNotMatter | AmpUnreal/Source/AmpUnreal/Private/AmpCore/AmpCore.cpp:44-62 | of two texts that differ in letter case only both are well formed or neither, and they denote the same bytes |
| Hex.CoreDecodesPrefix | AmpUnreal/Source/AmpUnreal/Private/AmpCore/AmpCore.cpp:51-62 | after 0x, 0X or nothing the pairs up to the first that is not hexadecimal are decoded, whatever follows |
| Hex.SdkPrefixes | src/crypto/crypto.cpp:28 | 0x is dropped; 0X is not and becomes a zero byte in front |
| Hex.DecodeOfEncode | src/crypto/crypto.cpp:17-34 | decoding the encoding of any bytes gives the bytes |
| Hex.EncodeOfDecode | AmpUnreal/Source/AmpUnreal/Private/AmpCore/AmpCore.cpp:30-62 | encoding the decoding of an even-length `0x` string is its lower-casing |
| Hex.SdkDecodesHex | src/crypto/crypto.cpp:26-34 | on every such string the SDK decoder returns the denoted bytes and does not throw |
| Hex.CoreDecodesHex | AmpUnreal/Source/AmpUnreal/Private/AmpCore/AmpCore.cpp:51-62 | on every such string the AmpCore decoder returns the same bytes |
| Hex.SameBytes | AmpUnreal/Source/AmpUnreal/Private/AmpCore/AmpCore.cpp:51-62 | two such strings denote the same bytes exactly when they differ in letter case only |
| Messages.Eip191Layout | AmpUnreal/Source/AmpUnreal/Private/AmpCore/AmpCore.cpp:87-92 | the 26 header bytes of EIP-191, then the length of the message in decimal without leading zeros, then the message |
| Messages.Eip191Injective | AmpUnreal/Source/AmpUnreal/Private/AmpCore/AmpCore.cpp:87-92 | equal EIP-191 preimages come from equal messages, although nothing separates the decimal length from the message |
| Messages.Eip191IsNotEip712 | include/amp/signers/private_key_signer.hpp:78-88 | no EIP-191 preimage starts like an EIP-712 one, so neither signing path can produce the input of the other |
| Messages.ExitCertLines | src/crypto/crypto.cpp:60-68 | the text is eight lines in this order, with the rank and the frame as decimal numbers that read back |
| Messages.EveryCertificate | src/crypto/crypto.cpp:60-61 | every 32-bit rank and every 64-bit frame makes a certificate |
| Messages.ExitCertSharesText | AmpUnreal/Source/AmpUnreal/Private/AmpCore/AmpCore.cpp:77-85 | two certificates have one text exactly when they are equal or twins: the match id of one is that of the other followed by its rank, frame and hash lines, and the rest fits |
| Messages.ExitCertAmbiguousIff | src/crypto/crypto.cpp:60-68 | another certificate with the same text exists if and only if the match id or the state hash contains a rank line, a frame line and the start of a hash line, for all 32-bit ranks and 64-bit frames |
| Messages.ExitCertBinds | src/crypto/crypto.cpp:60-68 | in particular the text fixes all four fields if both match ids, or both state hashes, contain no line break |
| Messages.SdkCommitHash | src/crypto/crypto.cpp:70-91 | the commit hash is the hex of the hash of address, 8-byte big-endian stake and salt, or the exception of the address decoder |
| Messages.CoreCommitHash | AmpUnreal/Source/AmpUnreal/Private/AmpCore/AmpCore.cpp:96-110 | the same layout with the address cut to 20 bytes and no exception |
| Messages.CommitLayout | src/crypto/crypto.cpp:70-87 | the address comes first, then eight bytes that denote the stake, then the salt |
| Messages.CommitPreimageInjective | src/crypto/crypto.cpp:70-91 | for addresses of one length the preimage fixes address, stake and salt |
| Messages.CommitPreimagesAgree | AmpUnreal/Source/AmpUnreal/Private/AmpCore/AmpCore.cpp:96-110 | for well-formed addresses both implementations hash the same bytes exactly when the address has at most 20 bytes, and of a longer one AmpCore keeps the first 20 |
| Messages.CommitBinds | src/crypto/crypto.cpp:70-91 | equal commit hashes mean equal commitments, or the two preimages are a collision |
| Eip712.PadLeft32Value | src/crypto/crypto.cpp:105-111 | the padded word denotes the number that the bytes denote, and zero if they are more than 32 |
| Eip712.PadRight32Layout | AmpUnreal/Source/AmpUnreal/Private/AmpCore/AmpCore.cpp:128-132 | the bytes stand in front and zeros after them; of an over-long value the SDK keeps nothing and AmpCore the first 32 bytes |
| Eip712.DomainTypeStringBuilt | src/crypto/crypto.cpp:156 | the domain type string is the type string of its four fields in order |
| Eip712.DomainLayout | src/crypto/crypto.cpp:155-172 | the five words of the domain: the hash of that type string, of the name, of the version, and the numbers chain id and contract |
| Eip712.StructLayout | src/crypto/crypto.cpp:175-219 | the six words of the struct, in the order of the fields |
| Eip712.ArrayLayout | src/crypto/crypto.cpp:199-208 | word k of the array encoding denotes the number of the k-th address |
| Eip712.DigestLayout | src/crypto/crypto.cpp:225-229 | 0x19, 0x01, domain hash, struct hash |
| Eip712.ArrayPreimageInjective | src/crypto/crypto.cpp:192-210 | the concatenation of padded addresses fixes the list, its length and its order |
| Eip712.LadderTypeStringBuilt | src/crypto/crypto.cpp:178-184 | the assembled type string is the one EIP-712 prescribes for the ladder |
| Eip712.LadderDigestBinds | src/crypto/crypto.cpp:155-231 | equal digests mean equal chain id, contract, match id, game id, ranked order, transcript hash and nonce, or one of the nested hash calls is an explicit collision |
| Eip712.LadderIsNotPersonalMessage | include/amp/signers/private_key_signer.hpp:78-88 | no ladder preimage is the preimage of a personal message |
| LadderSdk.SplitOfJoin | src/crypto/crypto.cpp:242-247 | joining with commas and splitting with `getline` returns the list exactly when no part has a comma and the last part is not empty; the empty list is included |
| LadderSdk.BuildTypeString | src/crypto/crypto.cpp:178-184 | the loop assembles the type string |
| LadderSdk.EncodeAddressArray | src/crypto/crypto.cpp:199-208 | the `getline` loop trims, decodes and pads every comma-separated part, or throws what the decoder throws |
| LadderSdk.TrimIs | src/crypto/crypto.cpp:204-205 | trimming removes the spaces and tabs at both ends and nothing else |
| LadderSdk.FieldWordIs | src/crypto/crypto.cpp:122-152 | what the word of a field means: a hash, a number, bytes in front, an address as a number, or zero |
| StringMap.GetOrEmptyAfterPut | src/crypto/crypto.cpp:212 | a field that was never set reads as empty, any other as last set |
| LadderSdk.EncodeOneField | src/crypto/crypto.cpp:122-152 | one field of the message as a 32-byte word, missing fields read as empty |
| LadderSdk.ComputeStructHash | src/crypto/crypto.cpp:175-219 | the bytes hashed are the type hash and the encoded fields in order; an unknown type or an undecodable value throws |
| LadderSdk.BuildLadderTypedData | src/crypto/crypto.cpp:233-268 | the typed data: domain, type, comma-joined placements and decimal nonce in the message map |
| LadderSdk.ArrayEncodingSurvivesJoin | src/crypto/crypto.cpp:192-208 | for any list of comma-free parts with a non-empty last one, encoding the joined text is encoding the list |
| LadderSdk.ArrayIsReference | src/crypto/crypto.cpp:192-210 | for well-formed placements the detour through text is EIP-712 `encodeData` of the address list |
| LadderSdk.StructPreimageIsReference | src/crypto/crypto.cpp:175-219 | the struct preimage is the one EIP-712 prescribes for the denoted ladder |
| LadderSdk.SdkIsReference | src/crypto/crypto.cpp:221-231 | the digest of every well-formed ladder is the EIP-712 digest of the values it denotes |
| LadderSdk.SdkDigestBinds | src/crypto/crypto.cpp:221-268 | two well-formed ladders with one digest agree in every field and in order, up to the case of hex digits, or exhibit a collision |
| LadderCore.EncodeAddressArray | AmpUnreal/Source/AmpUnreal/Private/AmpCore/AmpCore.cpp:201-208 | the loop over the map keeps the 42-character values, in key order |
| LadderCore.FieldWordIs | AmpUnreal/Source/AmpUnreal/Private/AmpCore/AmpCore.cpp:146-160 | the same meaning of every field word, and no failure on any value |
| LadderCore.MessageHoldsPlacements | AmpUnreal/Source/AmpUnreal/Private/AmpCore/AmpCore.cpp:258-259 | each placement is in the message under `placement` and its decimal index |
| LadderCore.EncodeOneField | AmpUnreal/Source/AmpUnreal/Private/AmpCore/AmpCore.cpp:146-160 | one field as a 32-byte word; nothing throws |
| LadderCore.ComputeStructHash | AmpUnreal/Source/AmpUnreal/Private/AmpCore/AmpCore.cpp:183-219 | the bytes hashed are the type hash and the encoded fields; only an unknown type fails |
| LadderCore.BuildLadderTypedData | AmpUnreal/Source/AmpUnreal/Private/AmpCore/AmpCore.cpp:233-264 | the typed data, with one map entry per placement |
| LadderCore.LexOrderMembers | AmpUnreal/Source/AmpUnreal/Private/AmpCore/AmpCore.cpp:258-259 | the order is a permutation of the placement indices |
| LadderCore.LexOrderIsSorted | AmpUnreal/Source/AmpUnreal/Private/AmpCore/AmpCore.cpp:202-208 | it is strictly increasing in the lexicographic order of the decimal numerals |
| LadderCore.PlacementsInLexOrder | AmpUnreal/Source/AmpUnreal/Private/AmpCore/AmpCore.cpp:256-261 | after any number of insertions the sorted map lists the placements in that order |
| LadderCore.CoreArrayIsReordered | AmpUnreal/Source/AmpUnreal/Private/AmpCore/AmpCore.cpp:201-209 | the array preimage is the reference encoding of the placements in that order |
| LadderCore.CoreStructIsReordered | AmpUnreal/Source/AmpUnreal/Private/AmpCore/AmpCore.cpp:183-219 | so is the struct preimage |
| LadderCore.CoreIsReordered | AmpUnreal/Source/AmpUnreal/Private/AmpCore/AmpCore.cpp:221-231 | the digest of a well-formed ladder is the EIP-712 digest of the reordered ladder |
| LadderCore.TenKeepOrder | AmpUnreal/Source/AmpUnreal/Private/AmpCore/AmpCore.cpp:258-259 | up to ten placements the lexicographic order is the numeric one |
| LadderCore.ElevenBreakOrder | AmpUnreal/Source/AmpUnreal/Private/AmpCore/AmpCore.cpp:258-259 | beyond ten placements the third entry is always placement 10 |
| LadderCore.EncodersAgree | AmpUnreal/Source/AmpUnreal/Private/AmpCore/AmpCore.cpp:197-218 | the two implementations hash the same array bytes if and only if every placement equals the one that takes its place in lexicographic order, and then the struct preimages, digest preimages and digests are equal |
| LadderCore.TenPlacementsAgree | AmpUnreal/Source/AmpUnreal/Private/AmpCore/AmpCore.cpp:233-264 | up to ten placements the two digests are equal for every well-formed ladder |
| LadderCore.DigestsAgreeIff | AmpUnreal/Source/AmpUnreal/Private/AmpCore/AmpCore.cpp:221-264 | the two digests of any well-formed ladder are equal if and only if the order is immaterial, or a nested hash call of the two ladders is an explicit collision |
| LadderCore.ElevenPlacementsDisagree | AmpUnreal/Source/AmpUnreal/Private/AmpCore/AmpCore.cpp:256-261 | with more than ten placements and distinct third and eleventh addresses the digests differ, or a nested hash call collides |
| LadderCore.CoreDigestBinds | AmpUnreal/Source/AmpUnreal/Private/AmpCore/AmpCore.cpp:221-264 | the reordered digest still commits to everything: equal digests mean equal ladders up to hex case, or a collision |
| Json.EscapeLoop | src/json.hpp:22-41 | the escape loop, control characters as four hex digits included |
| Json.Build | src/json.hpp:44-56 | the object text, absent fields left out and commas only between members |
| Json.SkipLoop | src/json.hpp:67-68 | the cursor stops at the first character that is no blank or tab |
| Json.ReadLoop | src/json.hpp:72-96 | the unescaping loop on any text, including bad and truncated escapes |
| Json.GetString | src/json.hpp:59-97 | search, colon, blanks, quote and read, with its four ways to find nothing |
| Json.ReadEscaped | src/json.hpp:73-95 | reading an escaped value up to its closing quote gives the value, whatever characters it has |
| Json.PassValue | src/json.hpp:60-62 | inside a written value the search for a quoted key stops only if the value after its last quote is exactly the key |
| Json.SearchLands | src/json.hpp:60-62 | over the whole object the search lands at the first member whose key is the field, or whose value ends that way |
| Text.FindFromIsFirst | src/json.hpp:61-64 | the search returns the first place where the pattern stands, or nothing if there is none |
| Json.GetStringOfObject | src/json.hpp:59-97 | for every object whose members have plain keys, arbitrary values and any blanks after their colons, what `getString` returns is told by the members alone: the value of the key, unless an earlier value diverts the search to the member after it |
| Json.GetStringOfBuild | src/json.hpp:22-97 | in particular for what `build` writes of any fields |
| Json.GetStringIsRight | src/json.hpp:59-97 | for such an object the value of the first member named `k` is returned if and only if no earlier value ends in `k` after its last quote, or the member after that one has the same value |
| Json.NotAString | src/json.hpp:64-70 | after the colon and blanks anything but a quote makes the reader return nothing |
| JsonSyntax.ObjectOfMembers | src/json.hpp:44-56 | the text of any members is an object by the grammar of RFC 8259 and denotes their keys and values |
| JsonSyntax.BuildIsJson | src/json.hpp:22-56 | in particular `build` writes valid JSON of the present fields, for all keys and values |
| JsonSyntax.ReadsWhatIsDenoted | src/json.hpp:72-96 | of any string by that grammar the reader returns what it denotes, if and only if it has no backslash-b, no backslash-f and no code above 255 |
| Json.GetStringMisreads | src/json.hpp:60-62 | the smallest failing case: an earlier value that is the key itself makes `getString` return the member after it |
| WebSocket.SendFrame | src/websocket.cpp:275-302 | the pushed bytes: FIN and opcode, masked length in its three forms, mask, masked payload |
| WebSocket.AppendLength | src/websocket.cpp:280-291 | the three length forms |
| WebSocket.Connection.Recv | src/websocket.cpp:251-270 | one `recv` call: some next bytes at the cursor, a wake-up without data, an error, or the end |
| WebSocket.Connection.RecvRaw | src/websocket.cpp:247-273 | fills the buffer with exactly the next bytes of the stream across any partial reads and timeouts; under a fair schedule it fails only if the stream is too short |
| WebSocket.Connection.ReadLength | src/websocket.cpp:382-391 | reads the extended length the seven-bit length asks for |
| WebSocket.Connection.ReadPayload | src/websocket.cpp:394-401 | reads mask and payload and unmasks in place |
| WebSocket.Unmask | src/websocket.cpp:399-401 | the in-place XOR loop masks every byte with `mask[i % 4]` |
| WebSocket.Connection.ReadFrame | src/websocket.cpp:371-401 | one turn consumes exactly the first frame of the stream, or breaks: at a frame over 16 MiB, at the end of the stream, or when the reads fail |
| WebSocket.Connection.FrameLoop | src/websocket.cpp:371-419 | under every schedule the frames decoded are a prefix of those in the stream, text is dispatched and pings and closes answered in order; under a fair schedule they are all of them |
| WebSocket.FrameLayout | src/websocket.cpp:276-302 | FIN set, no reserved bit, the opcode; the mask bit set; the mask key right before the masked payload (section 5.2 of RFC 6455) |
| WebSocket.MaskedBits | src/websocket.cpp:300-301 | each payload byte differs from the sent one exactly in the bits of its mask byte (section 5.3) |
| WebSocket.WireRoundTrip | src/websocket.cpp:371-401 | whatever follows it, a frame of either side, masked or not, with any flag bits, decodes to its opcode and payload and is consumed exactly, up to 16777216 bytes; one byte more breaks |
| WebSocket.FrameRoundTrip | src/websocket.cpp:275-304 | in particular the decoder undoes `sendFrame`, up to that size and no further |
| WebSocket.LogIs | src/websocket.cpp:403-418 | the payloads of the text frames are dispatched, every ping is answered by a pong with its payload and every close by a close, in order, and nothing else is (sections 5.5.1 and 5.5.3) |
| WebSocket.StreamRoundTrip | src/websocket.cpp:275-304 | any sequence of frames, masked or not, every payload up to 16 MiB, decodes to itself |
| WebSocket.TruncatedIsPrefix | src/websocket.cpp:371-419 | bytes that arrive later never change what was decoded before |
| WebSocket.CutStream | src/websocket.cpp:371-419 | a stream of frames cut anywhere decodes to a prefix of them |
| WebSocket.Session | src/websocket.cpp:247-304 | frames of a peer, cut anywhere and delivered under any schedule, reach the loop as a prefix; in full and under a fair schedule, exactly |
| WebSocket.LengthFormMinimal | src/websocket.cpp:280-291 | no header that decodes to the same length is shorter (section 5.2 of RFC 6455) |
| Base64.Base64Encode | src/websocket.cpp:32-47 | the loop over groups of three computes the text of the encoder function, missing bytes as zero bits |
| Base64.TableIsAlphabet | src/websocket.cpp:33-34 | the table lists the alphabet of RFC 4648 in order, without `=` |
| Base64.DecodeOfEncode | src/websocket.cpp:35-46 | a strict RFC 4648 decoder returns the bytes, for every byte sequence |
| Base64.PaddingFrom | src/websocket.cpp:41-44 | `=` stands in the last places, as many as the length modulo 3 requires, and nowhere else |
| Base64.Base64IsRfc | src/websocket.cpp:32-47 | round trip, length four times the number of started groups of three, and padding, together |
| Chunked.Dechunk | src/http_client.cpp:195-209 | the loop, cursor movements backwards included, for any number of turns, with all its exits: no line end, a line `std::stoull` rejects, size zero, a cursor past the end |
| Chunked.TurnIs | src/http_client.cpp:200-207 | what a turn does at any complete line: it stops where `std::stoull` throws or returns zero, else it takes that many characters, as far as they are there, and counts the cursor modulo 2^64 |
| Chunked.TurnWithoutEnd | src/http_client.cpp:200-201 | without a line end from the cursor on the loop stops |
| Chunked.TurnAtLine | src/http_client.cpp:200-207 | what a turn does at any complete size line, in any case, with leading zeros and any extension without a line end |
| Chunked.DecodeOfEncode | src/http_client.cpp:195-209 | every chunked body decodes to the concatenation of its chunks, whatever the chunks contain, in one turn for each chunk and one for the last (section 7.1 of RFC 9112) |
| Chunked.TruncatedIsPrefix | src/http_client.cpp:195-209 | such a body cut anywhere decodes to a prefix of its payload |
| Chunked.RunStable | src/http_client.cpp:198-208 | the text of a loop that has ended does not depend on the number of turns allowed |
| Chunked.EndlessIff | src/http_client.cpp:198-208 | on any body the loop never ends if and only if it comes back to a cursor it has been at, and if and only if it still runs after as many turns as the body has characters |
| Chunked.ProgressIff | src/http_client.cpp:207 | a turn moves the cursor forward if and only if the sum does not wrap 64 bits, or wraps to a position past the cursor |
| Chunked.ForwardIff | src/http_client.cpp:198-208 | every turn of a run moves forward if and only if no size that the loop reads wraps the cursor back |
| Chunked.EndsUnlessWrappingBack | src/http_client.cpp:198-208 | on any body, well formed or not, the loop ends if no size that it reads wraps the cursor back |
| Chunked.WrapRepeats | src/http_client.cpp:202-207 | the size 2^64 - 20 puts the cursor back where it was: the loop never ends |
| Chunked.WrapsBackYetEnds | src/http_client.cpp:202-207 | a size can wrap the cursor back into earlier data and the loop still end, so a backward wrap alone does not decide it |
| WaitForMatch.WaitForMatchAction.Activate | AmpUnreal/Source/AmpUnreal/Private/AMPAsyncActions.cpp:428-462 | without a world or a subsystem one failure is broadcast and nothing is set; otherwise binding, poll timer, a timeout timer if the timeout is positive, and one request at once |
| WaitForMatch.WaitForMatchAction.CheckOnce | AmpUnreal/Source/AmpUnreal/Private/AMPAsyncActions.cpp:464-467 | a request is sent unless the wait is over or the subsystem gone |
| WaitForMatch.WaitForMatchAction.OnReply | AmpUnreal/Source/AmpUnreal/Private/AMPAsyncActions.cpp:468-478 | only a non-empty live match id ends the wait, and only if nothing has |
| WaitForMatch.WaitForMatchAction.Finish | AmpUnreal/Source/AmpUnreal/Private/AMPAsyncActions.cpp:481-488 | ends the wait with the match, once |
| WaitForMatch.WaitForMatchAction.TimedOut | AmpUnreal/Source/AmpUnreal/Private/AMPAsyncActions.cpp:490-500 | ends the wait with the timeout, once |
| WaitForMatch.WaitForMatchAction.Cleanup | AmpUnreal/Source/AmpUnreal/Private/AMPAsyncActions.cpp:502-517 | unbinds if the subsystem lives and clears the timers if the context object does |
| WaitForMatch.RunWait | AmpUnreal/Source/AmpUnreal/Private/AMPAsyncActions.cpp:428-517 | a whole wait broadcasts what the step function does over the trace |
| WaitForMatch.WaitingStep | AmpUnreal/Source/AmpUnreal/Private/AMPAsyncActions.cpp:464-479 | an event that decides nothing leaves the wait going, with the requests in flight being those sent and not answered |
| WaitForMatch.FirstDecisiveWins | AmpUnreal/Source/AmpUnreal/Private/AMPAsyncActions.cpp:428-517 | over every trace of ticks, replies in any order, pushes and losses, the wait is over if and only if the trace has a decisive event; the first one fixes the only broadcast |
| WaitForMatch.EndsAt | AmpUnreal/Source/AmpUnreal/Private/AMPAsyncActions.cpp:481-517 | the first decisive event leaves the binding exactly if the subsystem had gone before it, and the poll timer exactly if the context object had |
| WaitForMatch.NothingAfterwards | AmpUnreal/Source/AmpUnreal/Private/AMPAsyncActions.cpp:464-500 | after the end no event broadcasts, sends or releases anything |
| WaitForMatch.FailedActivationIsFinal | AmpUnreal/Source/AmpUnreal/Private/AMPAsyncActions.cpp:435-449 | after a failed activation no event can broadcast again, although `bDone` stays false |
| WaitForMatch.AtMostOneBroadcast | AmpUnreal/Source/AmpUnreal/Private/AMPAsyncActions.cpp:428-517 | every wait broadcasts at most once and releases the node exactly when it does |
| WaitForMatch.AlwaysTidy | AmpUnreal/Source/AmpUnreal/Private/AMPAsyncActions.cpp:502-517 | a wait that is over leaves timers or binding behind only where the context object or the subsystem had gone |

## Left out

- Sockets, TLS, DNS, threads, the reconnect loop and the handshake: reads are a schedule of deliveries, timeouts, errors and stops; `sendRaw` is not modelled.
- OpenSSL: point addition, negation, decompression, comparison and inversion modulo n are functions with the laws of `IsCurve`; that secp256k1 satisfies them is assumed, and the `continue` branches for failed allocations are left out.
- Ecdsa.SigningOutcome: starts from a pair (r, s) that verifies; nonce generation inside `ECDSA_do_sign` is not modelled. The bridge's own hex loop prints the same text as `toHex`.
- Random masks and salts are arbitrary inputs; key loading and address derivation are left out.
- KeccakAbsorb.Absorb: the source's flat body is divided into one method per step mapping, with the same loops and order of writes; words are sequences of 64 booleans, since a shift by a variable amount on 64-bit vectors is too slow to reason about.
- LadderCore.EncodersAgree: speaks of well-formed ladders; malformed hex, where the two decoders differ, is covered by the decoder methods alone. A hash field of 42 characters, which AmpCore would take for a placement, is not well formed.
- Messages.CommitPreimagesAgree: needs a well-formed address text, for the same reason.
- Json.GetStringOfObject: keys are plain text without quotes, backslashes, colons, commas or control characters; values are arbitrary. `getInt` and `getBool` are left out.
- JsonSyntax.ReadsWhatIsDenoted: surrogate pairs are outside the grammar modelled, and each character is one byte.
- Chunked.Dechunk: is given a number of turns, since the source's loop need not end; memory that runs out in an endless run is not modelled. The splitting of head and body is left out.
- Chunked.DecodeOfEncode: bodies are shorter than 2^64 characters, as every `std::string` is.
- WebSocket.Connection.FrameLoop: the FIN bit is ignored, as in the source; the parsing inside `dispatch` and the bytes of the replies on the wire are left out.
- Base64.Base64Encode: the 24-bit group is built by addition where the source uses `|=` on disjoint bits.
- WaitForMatch.RunWait: one activation per node; a timeout of any length is an event that may come at any time, and what the game does inside a broadcast is not modelled. Message texts other than the error codes are left out, as is the parsing of the reply.
- REST endpoints, the other Blueprint nodes, the C interface with its caller-sized buffers, `amp_ladder_digest` with its fixed game id, report messages, URL parsing and event names: short request builders or thin wrappers.
- Text is sequences of characters, of which `std::string` keeps one byte each; Unreal's wide strings are not modelled.
