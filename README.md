# XRPL seed to EVM key mapping, in Dafny

This project models `mapXrplSecretToEvm` from the `xrpl-evm-mapping`
package. The function takes an XRPL seed string, such as
`sEdTM1uX8pu2do5XvTnutH6HsouMaM2`, and turns it into an EVM private key. It
does no hashing. It reinterprets the seed's own text bytes in four steps:

1. encode the seed as UTF-8 (RFC 3629, section 3);
2. render those bytes as lowercase base 16 (RFC 4648, section 8);
3. left-pad the hex with `'0'` to 64 digits (`String.prototype.padStart`,
   which never truncates);
4. decode the padded hex back into bytes (Node.js `Buffer.from(s, "hex")`).

From that key the function derives the EVM public key and address with
`ethereumjs-util`. It also derives the XRPL wallet with `xrpl`'s
`Wallet.fromSeed`. Then it assembles the `Mapped_Keys` record. The address
field carries a `0x` prefix.

Modules, one per concern:

- `Wrappers` (`wrappers.dfy`): `Option` and `Result`.
- `Bytes` (`bytes.dfy`): the byte type, runs of zero bytes and the big-endian
  value of a byte string.
- `Utf8` (`utf8.dfy`): the UTF-8 encoder. It also has a strict decoder, used
  to prove that the encoding is invertible and injective.
- `Hex` (`hex.dfy`): `toString("hex")` and Node's lenient hex decoder.
- `Strings` (`strings.dfy`): `padStart` with a one-character fill.
- `XrplEvmMapping` (`mapping.dfy`): the pipeline, the record and the
  function, with the lemmas about them.

The three foreign calls are parameters of the model, gathered in a
`Primitives` value of arbitrary functions. Each one may throw, modelled as
`None`. Nothing is assumed about what they compute, so every lemma holds for
any XRPL library and any secp256k1/Keccak library. A thrown exception becomes
a `Failure` naming the first call that threw.

Record fields are written in camelCase: `xrplAddress` stands for
`xrpl_address`, `mappedEvmPrivateKey` for `mapped_evm_private_key`, and so
on.

Two consequences of the code worth stating plainly:

- `mapXrplSecretToEvm` checks no length itself: it pads but never
  truncates, so a seed of more than 32 UTF-8 bytes gives a longer key
  (`LongKey`). Only the foreign calls could reject such a seed or key, and
  the model leaves them unconstrained.
- The 31-character seed `sEdTM1uX8pu2do5XvTnutH6HsouMaM2` is padded with one
  zero byte, `"00"`, to 64 digits (`ExampleSeedKey`).

## Model

The lemmas `PaddedHexLength` through `ShortKeyFits` below are stated over the bytes e of the seed: `PaddedHex(e)` is `secretKeyToHex.padStart(64, "0")` and `KeyOfBytes(e)` is `Buffer.from(padded_secret_key, "hex")`, so for e = `Utf8.Encode(secret)` they are `PaddedSecretKey(secret)` and `MappedPrivateKey(secret)`.

| member | source | states |
|---|---|---|
| Utf8.EncodeScalar | src/index.ts:20 | a scalar value takes 1 to 4 bytes, exactly 1 iff it is ASCII, and then that byte is its value |
| Utf8.EncodeScalarShape | src/index.ts:20 | each scalar's bytes are a lead byte followed only by continuation bytes (10xxxxxx) |
| Utf8.Encode | src/index.ts:20 | a string of n scalar values encodes to between n and 4n bytes |
| Utf8.DecodeEncodeScalar | src/index.ts:20 | whatever follows it, the strict decoder reads back the scalar value the encoder wrote and consumes exactly its bytes |
| Utf8.EncodeDecodeScalar | src/index.ts:20 | a byte sequence the decoder accepts for one scalar value is exactly the encoder's output for that value |
| Utf8.DecodeEncode | src/index.ts:20 | decoding the UTF-8 encoding of any string gives back the string |
| Utf8.EncodeDecode | src/index.ts:20 | every byte string that the strict decoder accepts is the encoding of the string it decodes to |
| Utf8.EncodeInjective | src/index.ts:20 | two strings with the same UTF-8 encoding are equal |
| Utf8.EncodeAscii | src/index.ts:20 | an ASCII string encodes to one byte per character, equal to that character's code |
| Utf8.EncodeAppend | src/index.ts:20 | the encoding of a concatenation is the concatenation of the encodings |
| Hex.ToHex | src/index.ts:20 | `toString("hex")` gives exactly 2·n characters, all from `0-9a-f` |
| Hex.ToHexAt | src/index.ts:20 | characters 2i and 2i+1 of the rendering are the digits of the high and the low nibble of byte i |
| Hex.NibbleValue | src/index.ts:28 | an ASCII character is a hex digit for Node exactly when it is `0-9`, `a-f` or `A-F`, and its value is below 16 |
| Hex.FromHex | src/index.ts:28 | `Buffer.from(s, "hex")` yields at most half as many bytes as s has characters |
| Hex.FromHexToHex | src/index.ts:28 | decoding the hex rendering of any bytes gives back the bytes |
| Hex.ToHexFromHex | src/index.ts:28 | an even-length lowercase hex string decodes to half as many bytes, and re-rendering them gives back the string |
| Hex.FromHexStopsAtBadPair | src/index.ts:28 | `Buffer.from(s, "hex")` keeps only the bytes before the first pair that is not two hex digits (of either case) |
| Hex.FromHexOddTail | src/index.ts:28 | a lone digit after an even-length prefix is dropped: it adds no byte |
| Hex.ToHexAppend | src/index.ts:20 | rendering a concatenation is the concatenation of the renderings |
| Hex.ToHexZeros | src/index.ts:24 | k zero bytes render as 2k `'0'` characters, so padding with an even number of `'0'`s means padding with zero bytes |
| Strings.PadStart | src/index.ts:24 | `padStart(width, fill)` gives length max(width, length of s), ends with s and has only fill before it, so it returns s unchanged when s is already width long or longer |
| Strings.PadStartUnique | src/index.ts:24 | length, suffix and fill together determine the result of `padStart` |
| Strings.Repeat | src/index.ts:24 | the fill is n copies of the fill character |
| Bytes.ValueZeroPrefix | src/index.ts:24-28 | leading zero bytes do not change the big-endian value |
| Bytes.ValueBound | src/index.ts:24-28 | an n-byte string denotes a number below 256^n |
| XrplEvmMapping.MappedKeys | src/index.ts:4-10 | the record `Mapped_Keys`: five strings, `xrpl_address`, `xrpl_secret`, `mapped_evm_private_key`, `mapped_evm_public_key` and `mapped_evm_public_address`; a datatype, with no contract of its own |
| XrplEvmMapping.MapXrplSecretToEvm | src/index.ts:15-43 | `mapXrplSecretToEvm` itself: on success the private key field is the padded hex of the seed, lowercase, and the address field starts with `0x`; `MapOutcome` states when it fails and which call it names, `MappedFields` what every field holds |
| XrplEvmMapping.PaddedSecretKey | src/index.ts:20-24 | `padded_secret_key` has length max(64, 2·n) for a seed of n UTF-8 bytes, ends with the seed's hex and is lowercase hex throughout |
| XrplEvmMapping.MappedPrivateKey | src/index.ts:20-28 | `mapped_private_key` renders back to `padded_secret_key`, denotes the same number as the seed's bytes, is 32 bytes for a seed of up to 32 bytes and is the seed's own bytes for a longer one (`ShortKey`, `LongKey`, `KeyHexRoundTrip`) |
| XrplEvmMapping.TemplateString | src/index.ts:35-36 | `${wallet.seed}` is the seed when there is one, and prints "undefined" exactly when the seed is absent or is the string "undefined" |
| XrplEvmMapping.PaddedHexLength | src/index.ts:20-24 | the padded hex of n bytes has length max(64, 2·n), and both it and the number of `'0'`s added are even |
| XrplEvmMapping.PaddedHexDigits | src/index.ts:20-24 | the padded hex ends with the unpadded hex, has only `'0'` before it and is lowercase hex throughout |
| XrplEvmMapping.ShortPadding | src/index.ts:24 | for n ≤ 32 bytes, `PaddedHex(e)` adds exactly 2(32 − n) `'0'`s |
| XrplEvmMapping.ShortKey | src/index.ts:20-28 | n ≤ 32 UTF-8 bytes e map to a key `KeyOfBytes(e)` of exactly 32 bytes: 32 − n zero bytes, then the bytes themselves |
| XrplEvmMapping.LongKey | src/index.ts:22-28 | n ≥ 32 bytes e map to themselves unchanged (`KeyOfBytes(e) == e`), so the key is longer than 32 bytes when n > 32 |
| XrplEvmMapping.KeyHexRoundTrip | src/index.ts:24-37 | the key `KeyOfBytes(e)` rendered as hex is the padded hex string `PaddedHex(e)`, and the key is half as long |
| XrplEvmMapping.KeyValuePreserved | src/index.ts:24-28 | the big-endian value of the key `KeyOfBytes(e)` equals that of the seed's UTF-8 bytes e |
| XrplEvmMapping.ShortKeyFits | src/index.ts:22-28 | the key `KeyOfBytes(e)` of at most 32 bytes e denotes a number below 2^256 |
| XrplEvmMapping.KeyInjectiveAtEqualLength | src/index.ts:20-28 | two seeds of the same UTF-8 length with the same mapped key are the same seed |
| XrplEvmMapping.LeadingNulCollision | src/index.ts:20-28 | a seed shorter than 32 bytes and the same seed behind a U+0000 character are different seeds with the same key, so the key identifies the seed only among seeds of one length |
| XrplEvmMapping.AsciiSecretKey | src/index.ts:20-28 | a base58 (ASCII) seed has one byte per character, so up to 32 characters give a 32-byte key and a longer seed gives a key as long as the seed |
| XrplEvmMapping.OneZeroByte | src/index.ts:20-28 | a 31-character ASCII seed maps to one zero byte followed by its own 31 bytes, and its padded hex starts with `"00"` |
| XrplEvmMapping.ExampleSeedKey | src/index.ts:20-28 | the seed `sEdTM1uX8pu2do5XvTnutH6HsouMaM2` maps to one zero byte followed by its own bytes, and its padded hex starts with `"00"` |
| XrplEvmMapping.MapOutcome | src/index.ts:15-43 | the function succeeds iff `Wallet.fromSeed`, `privateToPublic` and `privateToAddress` all return, and a failure names the first of them that threw |
| XrplEvmMapping.MappedFields | src/index.ts:34-40 | on success `xrpl_address` and `xrpl_secret` echo the wallet (an absent seed prints as "undefined"), `mapped_evm_private_key` is the padded hex, `mapped_evm_public_key` is the hex of `privateToPublic(key)` and `mapped_evm_public_address` is `"0x"` plus the hex of `privateToAddress(key)` |
| XrplEvmMapping.PrivateKeyField | src/index.ts:24-37 | the private key field is lowercase hex: exactly 64 digits for a seed of up to 32 bytes, and the seed's unpadded hex for a seed of 32 bytes or more |
| XrplEvmMapping.WalletIndependence | src/index.ts:17-39 | two runs that differ only in what `Wallet.fromSeed` returns agree on the three mapped EVM fields |
| XrplEvmMapping.AddressFieldShape | src/index.ts:32-39 | when the address primitive gives 20 bytes, the address field is `0x` followed by exactly 40 lowercase hex digits |

## Left out

- `Wallet.fromSeed` (src/index.ts:17): XRPL base58 seed decoding,
  checksum and keypair derivation belong to the `xrpl` library. It is an
  arbitrary partial function parameter.
- `privateToPublic` and `privateToAddress` (src/index.ts:31-32): secp256k1
  point multiplication and Keccak-256 belong to `ethereumjs-util`. They are
  arbitrary partial function parameters. The model does not capture that
  they reject a key that is not 32 bytes or not a valid scalar, nor that the
  address is computed from the public key.
- XrplEvmMapping.AddressFieldShape: the 20-byte length of an EVM address is a
  property of the address primitive, so the lemma takes it as a hypothesis.
- Strings.PadStart: lengths count Unicode scalar values, not UTF-16 code
  units; they agree on the ASCII hex digits that src/index.ts:24 pads.
- Hex.NibbleValue: only its behaviour on ASCII characters is claimed to be
  Node's; src/index.ts:28 only ever decodes ASCII hex.
- JavaScript strings are UTF-16. Node replaces a lone surrogate with U+FFFD
  before it encodes. The model's strings are sequences of Unicode scalar
  values, so lone surrogates cannot occur.
- Exceptions are modelled as a `Failure` value naming the call that threw.
  The exception objects and their messages are not modelled.
