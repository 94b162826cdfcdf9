# WebAuthn authenticator-data decoder, modelled in Dafny

This project models the one piece of real logic in a browser demo of the
WebAuthn API: the hand-written decoder `parseAuthenticatorData` for the
*authenticator data* byte string (W3C Web Authentication Level 2,
section 6.1 "Authenticator Data" and section 6.5.1 "Attested Credential
Data"), the byte-array helper `concatenateUint8Arrays`, and the step of
`parsePublicKey` that builds the uncompressed elliptic-curve point
`0x04 || x || y` (SEC 1 section 2.3.3) from the x and y coordinates of a COSE
EC2 key (labels -2 and -3, RFC 8152 section 13.1.1).

The decoder reads fixed offsets: a 32-byte RP ID hash, a flags byte split
into eight named bits (UP, RFU1, UV, RFU3, RFU4, RFU5, AT, ED), a big-endian
32-bit signature counter at bytes 33..36 and, when AT (0x40) is set, a
16-byte AAGUID, a big-endian 16-bit credential ID length L at bytes 53..54,
the credential ID and, as the raw COSE public key, the rest of the buffer.

Files:

- `wrappers.dfy` — `Option` (stands for JavaScript `null`) and `Result` (stands for a thrown exception).
- `bytes.dfy` — module `Bytes`: bytes as `bv8`; the clamping `Uint8Array.slice`; the big-endian
  `DataView.getUint16`/`getUint32` reads with their RangeError; `BE16`/`BE32` and their inverses
  `U16BE`/`U32BE` with round-trip lemmas; `Concatenate`, the array concatenation helper.
- `authenticator_data.dfy` — module `AuthenticatorDataDecoder`: the `Flag` names and masks, the
  result records, `Decode` (the declarative statement of which bytes go where) and the imperative
  `ParseAuthenticatorData`, proved equal to it.
- `authenticator_data_properties.dfy` — module `AuthenticatorDataProperties`: the properties of
  `Decode`, and `Serialize`, the layout written out forwards, which `Decode` inverts.
- `public_key.dfy` — module `PublicKey`: the COSE coordinate lookup, `EncodePoint`, its inverse
  `DecodePoint`, and the `UncompressedPoint` method built from two `Concatenate` calls.

Modelling decisions:

- The decoder's input is the whole `ArrayBuffer` behind the `Uint8Array`. The source builds its
  `DataView` on `authData.buffer` and so ignores the view's `byteOffset`
  (src/navigator.credentials.create.jsx:156). The model assumes the view starts at offset 0 and
  spans the whole buffer, so the `DataView` reads see the same bytes as the slices and fail
  exactly when the slices run short.
- The `Set` of flag-name strings is a `set<Flag>`. `Flag.Name()` gives the string the source adds
  for each flag, and `NameSet` turns a `set<Flag>` into the set of strings the source holds.
  `NameSetMembership` shows that the two agree on every name, so testing `AT in flagsSet` is the
  source's `flagsSet.has("AT")`.
- The two `DataView` reads that can throw become the two `DecodeError` values. Slices never fail.
  Following the code: the decoder fails only when the input is shorter than 37 bytes, or when AT is
  set and the input is shorter than 55 bytes. A credential ID length that runs past the end of the
  buffer is not an error. The ID is then clamped to what is there and the public key is empty.
  Section 6.5.1 of Web Authentication Level 2 makes `credentialId` exactly L bytes long. This
  code does not check that, so a buffer shorter than 55 + L is clamped rather than rejected, and
  the model follows the code.
- A COSE label that is absent reads as `undefined`, and `new Uint8Array(undefined)` is empty. So a
  missing x or y gives an empty coordinate, not an error, and the model follows the code here too.

## Model

| member | source | states |
|---|---|---|
| `Bytes.Slice` | src/navigator.credentials.create.jsx:189 | `slice(begin, end)` clamps both indices to the length: the result's length is the clamped difference (or 0), element i is input byte begin + i, and an in-range slice is exactly `s[begin..end]` |
| `Bytes.SliceFrom` | src/navigator.credentials.create.jsx:190 | `slice(begin)` is the suffix from `begin`, or empty when `begin` is at or past the end |
| `Bytes.GetUint32` | src/navigator.credentials.create.jsx:161 | `getUint32(off, false)` succeeds iff off + 4 <= length; its value is the four bytes at `off` read most significant first, and lies below 2^32 |
| `Bytes.GetUint16` | src/navigator.credentials.create.jsx:185-186 | `getUint16(off, false)` succeeds iff off + 2 <= length; its value is the two bytes at `off` read most significant first, and lies below 2^16 |
| `Bytes.BE32Bound` | src/navigator.credentials.create.jsx:161 | a big-endian 32-bit field lies in [0, 2^32) |
| `Bytes.BE16Bound` | src/navigator.credentials.create.jsx:186 | a big-endian 16-bit field lies in [0, 65535] |
| `Bytes.BE32OfU32BE` | src/navigator.credentials.create.jsx:161 | decoding the big-endian encoding of n < 2^32 gives n |
| `Bytes.U32BEOfBE32` | src/navigator.credentials.create.jsx:161 | encoding the value of any four bytes gives those four bytes back |
| `Bytes.BE16OfU16BE` | src/navigator.credentials.create.jsx:186 | decoding the big-endian encoding of n < 2^16 gives n |
| `Bytes.U16BEOfBE16` | src/navigator.credentials.create.jsx:186 | encoding the value of any two bytes gives those two bytes back |
| `Bytes.Concatenate` | src/navigator.credentials.create.jsx:243-248 | returns a fresh array of length \|a\| + \|b\| whose first \|a\| elements are `a` and whose remaining elements are `b` |
| `AuthenticatorDataDecoder.FlagNames` | src/navigator.credentials.create.jsx:165-177 | declarative model of the flag set: the flags whose mask bit is set in the byte; its properties are the flag lemmas below |
| `AuthenticatorDataDecoder.DecodeAttestedCredentialData` | src/navigator.credentials.create.jsx:181-193 | declarative model of the AT branch: the getUint16 RangeError below 55 bytes, else the AAGUID, the length and the clamped ID and key slices; its properties are the attested-data lemmas below |
| `AuthenticatorDataDecoder.Decode` | src/navigator.credentials.create.jsx:155-212 | declarative model of the whole decoder, which `ParseAuthenticatorData` is proved equal to; its properties are the decode lemmas below |
| `AuthenticatorDataDecoder.BuildFlagsSet` | src/navigator.credentials.create.jsx:165-177 | after the eight conditional `add` calls, a flag is in the set exactly when its mask bit is set in `flags` |
| `AuthenticatorDataDecoder.FlagNamesOfMembership` | src/navigator.credentials.create.jsx:165-177 | a set of flags that holds a flag exactly when its bit is set in `flags` is `FlagNames(flags)` |
| `AuthenticatorDataDecoder.ReadAttestedCredentialData` | src/navigator.credentials.create.jsx:181-193 | the AT branch returns exactly the clamped AAGUID, length, credential ID and public key of `DecodeAttestedCredentialData`, or the getUint16 RangeError |
| `AuthenticatorDataDecoder.ParseAuthenticatorData` | src/navigator.credentials.create.jsx:155-212 | the imperative decoder returns exactly `Decode(authData)`, the RangeError cases included |
| `AuthenticatorDataProperties.FlagOfNameOfFlag` | src/navigator.credentials.create.jsx:169-177 | each of the eight strings the decoder adds reads back as its flag, so no two flags share a name |
| `AuthenticatorDataProperties.NameSetMembership` | src/navigator.credentials.create.jsx:169-181 | a flag's string is in the set of strings exactly when the flag is in `flagsSet`, so `flagsSet.has("AT")` is `AT in flagsSet` |
| `AuthenticatorDataProperties.FlagNamesMembership` | src/navigator.credentials.create.jsx:169-177 | a flag's name is in `flagsSet` iff `flags & mask != 0`, for each of the eight masks 0x01..0x80 |
| `AuthenticatorDataProperties.MaskSumOfFlagNames` | src/navigator.credentials.create.jsx:165-177 | summing the masks of the names present gives the flags byte exactly |
| `AuthenticatorDataProperties.FlagsByteOfFlagNames` | src/navigator.credentials.create.jsx:165-177 | re-encoding the decoded flag set gives the flags byte back |
| `AuthenticatorDataProperties.FlagNamesOfFlagsByte` | src/navigator.credentials.create.jsx:165-177 | a flags byte built from any chosen set of flags decodes to exactly that set |
| `AuthenticatorDataProperties.DecodeFailsIff` | src/navigator.credentials.create.jsx:161-186 | decoding fails iff the input has fewer than 37 bytes, or AT is set and it has fewer than 55; the counter error occurs iff the input has fewer than 37 bytes |
| `AuthenticatorDataProperties.DecodeHeader` | src/navigator.credentials.create.jsx:158-167 | `rpIdHash` is bytes [0,32), `flags` is byte 32, `signCount` = b[33]·2^24 + b[34]·2^16 + b[35]·2^8 + b[36] < 2^32, `flagsSet` = FlagNames(flags) |
| `AuthenticatorDataProperties.AttestedPresentIff` | src/navigator.credentials.create.jsx:176-193 | `attestedCredentialData` is present iff bit 0x40 is set, iff "AT" is in `flagsSet` |
| `AuthenticatorDataProperties.HeaderOnlyWhenAtClear` | src/navigator.credentials.create.jsx:181-193 | with AT clear, two inputs that agree on bytes [0,37) decode identically: nothing after byte 36 is read |
| `AuthenticatorDataProperties.FlagNamesToggleEd` | src/navigator.credentials.create.jsx:176-177 | toggling bit 0x80 toggles "ED" and leaves every other name, and the AT test, unchanged |
| `AuthenticatorDataProperties.AttestedCredentialDataOfTail` | src/navigator.credentials.create.jsx:181-193 | the attested credential data depends only on the bytes from 37 on |
| `AuthenticatorDataProperties.EdConsumesNothing` | src/navigator.credentials.create.jsx:177-209 | toggling ED changes only `flags` and `flagsSet`: the outcome, the counter, the hash and the attested data are as before, so no extension bytes are consumed |
| `AuthenticatorDataProperties.DecodedAttestedCredentialData` | src/navigator.credentials.create.jsx:181-193 | a decoded attested block exists only when AT is set and the input has at least 55 bytes, and it is the block read after the header |
| `AuthenticatorDataProperties.AttestedFields` | src/navigator.credentials.create.jsx:183-188 | with AT set, `aaguid` is bytes [37,53) and `credentialIdLength` = b[53]·256 + b[54] <= 65535 |
| `AuthenticatorDataProperties.CompleteAttestedCredentialData` | src/navigator.credentials.create.jsx:183-190 | when 55 + L fits, the attested block is exactly (bytes [37,53), L, bytes [55,55+L), bytes [55+L,end)), L < 2^16, and aaguid ++ U16BE(L) ++ id ++ key is bytes [37,end): nothing is lost or duplicated |
| `AuthenticatorDataProperties.TruncatedCredential` | src/navigator.credentials.create.jsx:189-190 | when 55 + L exceeds the length, the credential ID is bytes [55,end), shorter than L, and the public key is empty |
| `AuthenticatorDataProperties.Reassemble` | src/navigator.credentials.create.jsx:183-190 | four adjacent slices laid end to end give back the suffix they cover |
| `AuthenticatorDataProperties.DecodeSerialize` | src/navigator.credentials.create.jsx:155-193 | decoding the serialization of any well-formed record gives that record back |
| `AuthenticatorDataProperties.DecodeReadFrom` | src/navigator.credentials.create.jsx:155-193 | a decoded record holds exactly the fields read from the input: hash [0,32), flags byte 32, counter [33,37), the flag set, and the AT-branch block exactly when AT is set |
| `AuthenticatorDataProperties.SerializeHeaderReadFrom` | src/navigator.credentials.create.jsx:158-163 | the header fields read from the input lay out back to bytes [0,37), with the counter below 2^32 |
| `AuthenticatorDataProperties.SerializeReadFrom` | src/navigator.credentials.create.jsx:155-193 | any record holding the fields read from the input is well formed iff AT is clear or 55 + L fits, and then serializes to bytes [0,37) or to the whole input |
| `AuthenticatorDataProperties.SerializeDecode` | src/navigator.credentials.create.jsx:155-193 | a decoded record is well formed iff AT is clear or 55 + L fits, and then serializing it gives bytes [0,37) (AT clear) or the whole input (AT set) |
| `AuthenticatorDataProperties.EndToEndScenario` | src/navigator.credentials.create.jsx:181-193 | a 148-byte input with AT set and length bytes 00 10 decodes to a 16-byte credential ID [55,71) and a 77-byte key [71,148) |
| `PublicKey.MissingCoordinates` | src/navigator.credentials.create.jsx:215-220 | an absent label -2 or -3 is not an error: it contributes no bytes, so the point is 0x04 followed by the coordinate that is present, or 0x04 alone |
| `PublicKey.CosePointCoordinates` | src/navigator.credentials.create.jsx:215-220 | with both labels present and of equal length, the point decodes back to exactly the values under -2 and -3 |
| `PublicKey.EncodePoint` | src/navigator.credentials.create.jsx:219-220 | the point has length 1 + \|x\| + \|y\|, starts with 0x04, then holds x, then y |
| `PublicKey.DecodeEncodePoint` | src/navigator.credentials.create.jsx:219-220 | for coordinates of equal length, decoding the encoded point gives back (x, y) |
| `PublicKey.EncodeDecodePoint` | src/navigator.credentials.create.jsx:219-220 | every byte string that decodes as an uncompressed point is the encoding of the coordinates it decodes to |
| `PublicKey.P256PointLength` | src/navigator.credentials.create.jsx:219-220 | with 32-byte P-256 coordinates the point is 65 bytes |
| `PublicKey.NewArray` | src/navigator.credentials.create.jsx:216-217 | `new Uint8Array(s)` is a fresh array holding a copy of s |
| `PublicKey.UncompressedPoint` | src/navigator.credentials.create.jsx:214-220 | returns a fresh array holding `EncodePoint(x, y)` for the coordinates under labels -2 and -3 |

## Left out

- The React components (`CredentialsCreateExample`, `CredentialsCreateResult`, `CredentialsGetExample`, `CodeBox`, `ToggleCodeBox`, `App`) and the build configuration: they only render and pass state.
- The browser calls `navigator.credentials.create` and `navigator.credentials.get`. They are asynchronous, need a user gesture and are provided by the browser.
- CBOR decoding (`cbor.decode`) of the attestation object and of the COSE key. Its outputs are inputs to the model: the `authData` bytes, and a `CoseKey` map.
- `base64url`, `JSON.stringify` and `TextDecoder`. They only format output.
- The ASN.1/DER `SubjectPublicKeyInfo` built by `parsePublicKey` after the point. The encoding is done by the `asn1js`/`pkijs` libraries, whose code is not part of this model. The source also puts the P-256 curve OID 1.2.840.10045.3.1.7 in the algorithm slot with NULL parameters, which is not the id-ecPublicKey algorithm with namedCurve parameters that section 2.1.1 of RFC 5480 requires. Its only caller is commented out.
- Extension-data parsing for the ED flag. It is commented out in the source, so ED stays a name in the flag set and consumes no bytes.
- The `byteOffset` of the `Uint8Array` passed to the decoder. The model assumes offset 0 and a view over the whole buffer. With a non-zero offset, `getUint32` reads bytes 33..36 of the buffer rather than of `authData`. With offset 0 and a view shorter than its buffer, it reads the right bytes, but it can succeed on an `authData` shorter than 37 bytes by reading past its end. Its RangeError (src/navigator.credentials.create.jsx:161) would then depend on the buffer's length, not on the length of `authData`. The model does not capture that, so `DecodeFailsIff` describes the failures only under the offset-0, whole-buffer assumption.
- PublicKey.UncompressedPoint: models COSE values that are byte strings or absent only. It does not model other CBOR values that `new Uint8Array(...)` would also accept, such as a number giving a zero-filled array of that length.
