# Ethereum message signing (`app_eth_sign_msg`), modelled in Dafny

This project models the message-signing pipeline of the BitBox02 firmware's
Ethereum app. One call of `app_eth_sign_msg` does the following, in order:

1. It refuses a payload over 1024 bytes and any network other than main net.
2. It derives the signing address and asks the user to confirm it.
3. It builds the EIP-191 "personal message" preimage in a fixed 1054-byte buffer:
   `0x19 "Ethereum Signed Message:\n"`, then the payload length in decimal, then the payload.
4. It classifies the payload as printable or not.
5. It builds a display body of at most 67 characters in a fixed 68-byte buffer.
   Long payloads are shown with the middle elided; non-printable payloads are shown in hex.
6. It asks the user to confirm the message.
7. It hashes exactly the used part of the preimage buffer with Keccak-256.
8. It has the keystore sign the digest.
9. It returns the 64 signature bytes followed by the recovery id.

The files:

- `bytes.dfy` (module `Bytes`): the C byte types, zero-initialised buffers, `memcpy`/`memset` on arrays, and C strings.
- `format.dfy` (module `Format`): `%d` as `Decimal`, with its inverse `ParseDecimal`;
  `util_uint8_to_hex` as `Hex`, with its inverse `UnHex`; and `%.*s` as `PutPrecision`.
- `eth_message.dfy` (module `EthMessage`): the specification functions `Preimage`, `AllAscii`, `Body` and `Title`, with their properties.
  It also holds the methods that fill the source's buffers in place and are proved to produce them.
- `eth_sign_msg.dfy` (module `EthSignMsg`): the pipeline.
  - The collaborators are the fields of a `Platform` value: address derivation, the confirmation screen, Keccak-256 and the keystore signer.
  - Every call into a collaborator is recorded as an `Event` in a trace.
  - `Pipeline` is the functional specification of one call.
  - `SignMsg` is the imperative model over arrays. Its contract says that it returns exactly `Pipeline`'s outcome and trace.
  - The safety properties are lemmas about `Pipeline`.

The classification keeps the bounds as the code writes them: a byte counts as printable when it lies between decimal 20 and 127, both included.
That is wider than printable ASCII (32 to 126).
For example, an ESC byte (27) is classified as printable and is shown verbatim rather than in hex.
The model follows the code here.

secp256k1 recovery ids lie in 0..3, but the code only refuses values above 0xFF.
It then keeps the value modulo 256 (`RecidByte`).

`app_eth_sign_msg` makes no check that the key path is non-empty or of bounded depth.
Address derivation and the keystore are left to do it.

## Model

| member | source | states |
|---|---|---|
| `EthSignMsg.Pipeline` | src/apps/eth/eth_sign_msg.c:27-145 | One call, step by step: the size and network checks, derivation, the address screen, the message screen, the hash of the preimage, the keystore call and the packed signature. A call makes at most 5 collaborator calls. It makes all 5 exactly when it ends in `Ok` or `Unknown`, and an `Ok` signature has 65 bytes. |
| `EthSignMsg.SignMsg` | src/apps/eth/eth_sign_msg.c:27-145 | Over its fixed buffers, the call returns exactly the outcome and the sequence of collaborator calls that `Pipeline` specifies. This covers the hashed bytes, both screens and the 65-byte signature. |
| `EthSignMsg.OversizedPayloadRefused` | src/apps/eth/eth_sign_msg.c:31-33 | A payload over 1024 bytes gives `InvalidInput`, and no collaborator is called. |
| `EthSignMsg.OtherNetworkRefused` | src/apps/eth/eth_sign_msg.c:34-38 | Any network other than main net gives `InvalidInput`, and no collaborator is called. |
| `EthSignMsg.DerivationFailureRefused` | src/apps/eth/eth_sign_msg.c:40-50 | A failed address derivation gives `InvalidInput` after the derivation call alone. No screen is shown. |
| `EthSignMsg.AddressRejectionAborts` | src/apps/eth/eth_sign_msg.c:51-60 | Rejecting the "Your address" screen gives `UserAbort`. The trace ends with that screen, with no second screen, hash or signature. |
| `EthSignMsg.ContentRejectionAborts` | src/apps/eth/eth_sign_msg.c:111-120 | Rejecting the message screen gives `UserAbort`. The trace ends with that screen, with no hash or signature. |
| `EthSignMsg.SigningFollowsBothApprovals` | src/apps/eth/eth_sign_msg.c:40-136 | The keystore is asked to sign only as the fifth and last call. Before it: the address was derived, its screen was accepted, the screen for this payload was accepted, and this payload's preimage was hashed. The digest signed is that hash. |
| `EthSignMsg.HashCoversPreimageOnly` | src/apps/eth/eth_sign_msg.c:122-127 | The hashed bytes are exactly the preimage: `payload_offset + size` bytes, never more than the 1054-byte capacity. |
| `EthSignMsg.SignatureLayout` | src/apps/eth/eth_sign_msg.c:129-144 | `Ok` comes only after a successful keystore call. Its signature is 65 bytes: the keystore's 64 bytes, then the recovery id as `uint8_t`. That byte equals the recovery id when the id is in 0..255. |
| `EthSignMsg.UnknownMeansKeystoreFailure` | src/apps/eth/eth_sign_msg.c:134-138 | The outcome is `Unknown` exactly when both screens were accepted and the keystore failed to sign the preimage's digest. |
| `EthSignMsg.RecidByte` | src/apps/eth/eth_sign_msg.c:139-142 | The `(uint8_t)` conversion of the recovery id keeps any id from 0 to 255 unchanged. |
| `EthSignMsg.PackSignature` | src/apps/eth/eth_sign_msg.c:130-142 | The 65-byte response holds the keystore's 64 bytes, then the recovery id as `uint8_t`, which is the id itself when it lies in 0..255. |
| `EthMessage.Preimage` | src/apps/eth/eth_sign_msg.c:62-72 | The hashed bytes start with the 26-byte header, end with the payload, and have at least one length digit between them. |
| `EthMessage.PreimageFits` | src/apps/eth/eth_sign_msg.c:65-68 | For a payload of at most 1024 bytes, the preimage is `payload_offset + size` bytes long and fits the 1054-byte buffer. |
| `EthMessage.PreimageLayout` | src/apps/eth/eth_sign_msg.c:62-72 | The 26-byte header, then 1 to 4 decimal digits that parse back to the payload size, then the payload. `payload_offset` is 26 plus the digit count. The preimage fits the 1054-byte buffer, and fills it exactly when the size is 1024. |
| `EthMessage.PreimageInjective` | src/apps/eth/eth_sign_msg.c:62-72 | Two payloads with the same preimage are equal. The length prefix allows only one way to split a preimage. |
| `EthMessage.BuildPreimage` | src/apps/eth/eth_sign_msg.c:68-72 | The zero-initialised 1054-byte buffer, after `snprintf` and `memcpy`, holds the preimage followed only by zeros. The returned offset is `payload_offset`. |
| `EthMessage.PutHeader` | src/apps/eth/eth_sign_msg.c:62-71 | `snprintf("%s%d")` into the zeroed preimage buffer writes the header and the decimal size, leaves zeros after them, and returns the count written, which leaves room for the payload. |
| `EthMessage.ClassifyAscii` | src/apps/eth/eth_sign_msg.c:74-79 | The loop's flag is true exactly when every payload byte lies in [20, 127]. |
| `EthMessage.AllAscii` | src/apps/eth/eth_sign_msg.c:74-79 | The classification: every byte lies in [20, 127]. A payload classified as printable contains no NUL byte, so the verbatim branch prints all of it. |
| `EthMessage.Body` | src/apps/eth/eth_sign_msg.c:81-102 | Every branch's display text has at most 67 characters and no NUL, so it fits the 68-byte buffer with its terminator. |
| `EthMessage.BodyShapes` | src/apps/eth/eth_sign_msg.c:81-102 | The four branches: printable over 67 bytes shows 32 bytes, "..." and 32 bytes (67 characters); non-printable over 33 bytes shows hex of 16 bytes, "..." and hex of 16 bytes (67 characters); a short printable payload shows verbatim; a short non-printable payload shows in full hex (2 characters per byte). |
| `EthMessage.Title` | src/apps/eth/eth_sign_msg.c:104-109 | The title is "Sign\nETH Message" exactly when the payload is printable, and the "(hex)" title otherwise. |
| `EthMessage.ShortPayloadShownInFull` | src/apps/eth/eth_sign_msg.c:96-109 | A payload too short to be elided can be read back exactly from its title and body. |
| `EthMessage.LongPayloadShowsBothEnds` | src/apps/eth/eth_sign_msg.c:85-95 | An elided body has "..." at offsets 32 to 34. Its two ends give back exactly the first and last 32 payload bytes, or, in hex, the first and last 16. |
| `EthMessage.HelloExample` | src/apps/eth/eth_sign_msg.c:62-109 | For the payload "hello": the preimage is the header, "5", then "hello"; the body is "hello"; the title is the plain one. |
| `EthMessage.BuildBody` | src/apps/eth/eth_sign_msg.c:84-102 | The zero-initialised 68-byte buffer holds the display text followed only by zeros. Read as a C string, it gives exactly `Body`. |
| `EthMessage.BodyBufferReadsBack` | src/apps/eth/eth_sign_msg.c:111-116 | The body buffer, holding the display text followed by zeros, reads back as a C string as exactly that text. |
| `EthMessage.PutElidedText` | src/apps/eth/eth_sign_msg.c:85-91 | `snprintf("%.32s...%.32s")` into the body buffer writes the elided printable text and its terminator. |
| `EthMessage.PutElidedHex` | src/apps/eth/eth_sign_msg.c:92-95 | The two hex conversions and the `memset` write the elided hex text within the buffer. |
| `EthMessage.PutText` | src/apps/eth/eth_sign_msg.c:96-99 | `snprintf("%.*s", size, ...)` writes the printable payload and its terminator. |
| `Format.Decimal` | src/apps/eth/eth_sign_msg.c:71 | `%d` of the size: at least one decimal digit, and no leading zero unless the number is 0. |
| `Format.DecimalRoundTrip` | src/apps/eth/eth_sign_msg.c:71 | Parsing the decimal digits gives back the number. |
| `Format.DecimalLengthBound` | src/apps/eth/eth_sign_msg.c:65-68 | A number below 10^k has at most k digits, so a size up to 1024 needs at most 4. |
| `Format.DecimalLengthMonotone` | src/apps/eth/eth_sign_msg.c:70-71 | A larger size never has fewer digits. |
| `Format.Hex` | src/apps/eth/eth_sign_msg.c:101 | Hex text has two hex characters per byte and no NUL. |
| `Format.HexRoundTrip` | src/apps/eth/eth_sign_msg.c:101 | Reading the hex text back gives the original bytes. |
| `Format.PutHex` | src/apps/eth/eth_sign_msg.c:93-95 | The hex conversion writes the hex text at the given offset and leaves the rest of the buffer unchanged. |
| `Format.PutPrecision` | src/apps/eth/eth_sign_msg.c:89-91 | `%.*s` copies bytes until a NUL or the precision, whichever comes first, and returns the count. |
| `Format.PrecisionStop` | src/apps/eth/eth_sign_msg.c:89-91 | `%.*s` stops at the precision, or earlier at the first NUL; what it prints is the C string of the first `precision` bytes. |
| `Bytes.PutBytes` | src/apps/eth/eth_sign_msg.c:72 | `memcpy` places the bytes at the offset and changes nothing else. |
| `Bytes.Fill` | src/apps/eth/eth_sign_msg.c:94 | `memset` writes `count` copies of the value at the offset and changes nothing else. |
| `Bytes.CString` | src/apps/eth/eth_sign_msg.c:111-116 | What the confirmation screen reads from the body buffer: the longest NUL-free prefix, stopped by a NUL when it is shorter than the buffer. |

## Left out

- Keccak-256 (`rhash_sha3_256_init`, `rhash_sha3_update`, `rhash_keccak_final`) is not part of this model.
  It is the `keccak256` field of `Platform`: a function from bytes to 32 bytes.
  The firmware uses the original Keccak padding, not FIPS 202 SHA-3 padding; the model does not tell the two apart.
- Address derivation (`app_eth_address`) and secp256k1 signing (`keystore_secp256k1_sign`) are hardware-backed and not part of this model.
  They are the `address` and `sign` fields of `Platform`, returning `None` on failure.
  The key-path checks they make are theirs and are not modelled.
- The confirmation screen (`workflow_confirm`) is a blocking user interaction.
  It is the `confirm` field: whether the user accepts the given title, body and scroll flag.
- The collaborators are modelled as functions, and that is an assumption of the model:
  - address derivation, Keccak-256 and the keystore give the same answer for the same inputs, so the signature is taken to be deterministic;
  - the user's answer depends only on the screen's title, body and scroll flag.
  A randomised signer, or an answer that depends on anything else, is not captured.
- The hex letter case of `util_uint8_to_hex` is not part of this model.
  Lower-case letters are used; the proofs rely only on two non-NUL hex characters per byte.
  Any terminator that function may write is not modelled; the zero-initialised buffer already ends the text.
- Truncation by `snprintf` is not modelled because no branch ever reaches it: each output is proved to fit its buffer.
- `Abort` is not modelled as an outcome.
  The recovery-id check becomes the precondition `RecidFitsByte` on the keystore.
  The `sizeof(response->signature) != 65` check becomes the fixed 65-byte array.
- When the keystore fails, the model returns `Unknown` without a signature.
  Anything the keystore may already have written into `response->signature` is not modelled.
- The protobuf request and response structs are not part of this model.
  The payload is its first `size` bytes, as a sequence.
  The networks other than main net appear only as `OtherCoin` ids.
