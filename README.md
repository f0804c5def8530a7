# Pricing record: value, hex codec, canonical message and block validation

A Dafny model of the oracle pricing record of `src/oracle/pricing_record.cpp`:
a snapshot of a spot price and its moving average, signed by the price oracle
and carried in every block once the slippage-yield hard fork is active.

- `types.dfy` (`Types`): `uint64`, `uint32`, `byte`, the 64-byte `Signature`
  and unsigned 64-bit wrap-around addition.
- `hex_codec.dfy` (`HexCodec`): the lowercase hex text of the signature that
  `store` writes, and the byte-pair reading `_load` does with
  `strtol(.., 16)` followed by a `(char)` cast.
- `pricing_record.dfy` (`PricingRecords`): the record value `Record` with
  `equal`, `empty` and `has_missing_rates`; the key/value map form
  `KvRecord`; and the C++ object as class `PricingRecord`, whose default
  constructor, copy constructor, `operator=`, `_load` and `store` update or
  read the fields and the inline 64-byte signature buffer in place.
- `canonical_message.dfy` (`CanonicalMessage`): the signed text
  `{"pr_version":V,"spot":S,"moving_average":M,"timestamp":T}` with decimal
  numbers, and the proof that it determines exactly the four numeric fields.
- `validator.dfy` (`Validator`): `verifySignature` and `valid`, the ordered
  acceptance checks: hard-fork gate, empty accept, missing rates, signature,
  future bound, monotonicity.

The foreign pieces are parameters. `Crypto` holds two total functions. The
first reads a PEM key text and has three outcomes: no memory buffer for the
text (`BIO_new_mem_buf` fails, and `verifySignature` returns false at line
143), no key read from it (`PEM_read_bio_PUBKEY` fails, and the call throws
at line 147), or a key. The second says whether the SHA-256 digest
verification accepts a signature over a message under a key. `Config`
holds `HF_VERSION_SLIPPAGE_YIELD`, `PRICING_RECORD_VALID_TIME_DIFF_FROM_BLOCK`
and the network's `ORACLE_PUBLIC_KEY`; it stands for `get_config(nettype)`.
A C++ call that can throw is modelled as returning a `Verdict`: either
`Returns(bool)` or `Throws(fault)`. A fault is an empty key (line 137) or a
key that does not parse (line 147).

Notes on the code as written:
- `_load` has no length check. A signature text longer than 128 characters
  would write past the 64-byte buffer, so `PricingRecord.Load` requires at
  most 128 characters. Shorter text rewrites only the first
  `ceil(len / 2)` bytes and leaves the rest unchanged. Odd-length text reads
  its last byte from one character.
- Each two-character window is read with `strtol` and no error check. The
  model follows `strtol`'s base-16 rules on such a window. Leading white
  space and a sign are accepted. A window without digits reads as 0. A
  negative value becomes a byte modulo 256. Well-formed lowercase or
  uppercase hex reads as its value.
- `PRICING_RECORD_VALID_TIME_DIFF_FROM_BLOCK` is added to the block
  timestamp in unsigned 64-bit arithmetic. The model wraps the sum modulo 2^64.
- `verifySignature` builds a hex copy of the signature (lines 149-155) and
  never uses it. The signature is verified over the raw 64 bytes.

## Model

| member | source | states |
|---|---|---|
| `Types.AddU64` | src/oracle/pricing_record.cpp:220 | the unsigned 64-bit sum: the true sum when it fits, otherwise the sum less 2^64, which is smaller than both operands |
| `Types.ZeroSignature` | src/oracle/pricing_record.cpp:65 | 64 bytes, all zero, as `memset` leaves the buffer |
| `HexCodec.HexDigit` | src/oracle/pricing_record.cpp:94 | the nibble's digit is a lowercase hex digit that reads back as the nibble |
| `HexCodec.ByteHex` | src/oracle/pricing_record.cpp:94 | a byte prints as two lowercase hex digits, high nibble first, zero-padded; `strtol` with the `(char)` cast reads them back as the byte |
| `HexCodec.HexOf` | src/oracle/pricing_record.cpp:91-96 | the appended hex text has two characters per byte |
| `HexCodec.HexOfAt` | src/oracle/pricing_record.cpp:91-96 | characters `2j` and `2j+1` are the high and low nibble digits of byte `j`, in byte order |
| `HexCodec.StoreFormat` | src/oracle/pricing_record.cpp:89-96 | `store`'s text is 128 characters for 64 bytes; each pair is two lowercase hex digits whose value is the byte, zero-padded |
| `HexCodec.StoreIsLowercaseHex` | src/oracle/pricing_record.cpp:94 | every character written is one of `0-9a-f` |
| `HexCodec.StrtolHex` | src/oracle/pricing_record.cpp:80 | the `strtol` base-16 value of a 1-2 character window is in -15..255; two hex digits give their value; no digit anywhere gives 0 |
| `HexCodec.ParsedByte` | src/oracle/pricing_record.cpp:80 | the `(char)` cast keeps a non-negative value and adds 256 to a negative one |
| `HexCodec.Window` | src/oracle/pricing_record.cpp:79 | `substr(i, 2)` is the two characters at `i`, or the last character alone |
| `HexCodec.DecodeInto` | src/oracle/pricing_record.cpp:78-81 | the buffer after the decode loop keeps its length; a pair of hex digits at `2j` gives byte `j` its value; bytes at index `ceil(len/2)` and beyond keep their old value |
| `HexCodec.DecodeHexOf` | src/oracle/pricing_record.cpp:78-96 | decoding `store`'s hex text restores all 64 bytes, whatever the buffer held before |
| `PricingRecords.Record.Equal` | src/oracle/pricing_record.cpp:120-127 | `equal` (four field comparisons and `memcmp`) holds exactly when the two record values are identical |
| `PricingRecords.Record.Empty` | src/oracle/pricing_record.cpp:129-133 | `empty` holds exactly when all four numbers are 0 and all 64 signature bytes are 0 |
| `PricingRecords.Record.HasMissingRates` | src/oracle/pricing_record.cpp:193-196 | every empty record has missing rates, so `valid` must test emptiness before the rates |
| `PricingRecords.Default` | src/oracle/pricing_record.cpp:59-66 | the default value has four zero numbers and 64 zero signature bytes |
| `PricingRecords.ToKv` | src/oracle/pricing_record.cpp:89-99 | the map `store` writes carries a signature text of exactly 128 lowercase hex digits |
| `PricingRecords.FromKv` | src/oracle/pricing_record.cpp:68-87 | after a successful read the numbers come from the map, each pair of hex digits gives its byte, and bytes past `ceil(len/2)` keep their old value |
| `PricingRecords.EqualIsEquivalence` | src/oracle/pricing_record.cpp:120-127 | `equal` is reflexive, symmetric and transitive |
| `PricingRecords.EmptyIsDefault` | src/oracle/pricing_record.cpp:129-133 | the default record is empty and is the only empty record |
| `PricingRecords.MissingRatesIgnoresOtherFields` | src/oracle/pricing_record.cpp:193-196 | `has_missing_rates` depends on `spot` and `moving_average` only |
| `PricingRecords.KvRoundTrip` | src/oracle/pricing_record.cpp:68-99 | loading the map `store` wrote gives a record equal to the stored one, whatever the loading record held |
| `PricingRecords.PricingRecord.constructor` | src/oracle/pricing_record.cpp:59-66 | a fresh record has zero numbers and 64 zero signature bytes, and it is empty |
| `PricingRecords.PricingRecord.Copy` | src/oracle/pricing_record.cpp:101-108 | the copy has its own buffer and is `equal` to the original, byte for byte |
| `PricingRecords.PricingRecord.Assign` | src/oracle/pricing_record.cpp:110-118 | after assignment the record is `equal` to the source's old value, and the source is unchanged, self-assignment included |
| `PricingRecords.PricingRecord.SignatureHex` | src/oracle/pricing_record.cpp:91-96 | the 64-iteration append loop yields the hex text of the signature buffer |
| `PricingRecords.PricingRecord.Store` | src/oracle/pricing_record.cpp:89-99 | the map holds the four numbers and the 128-character hex text of the signature |
| `PricingRecords.PricingRecord.Load` | src/oracle/pricing_record.cpp:68-87 | a failed map read returns false and changes nothing. A successful one returns true, copies the four numbers, writes byte `i/2` from each window at even `i`, and keeps the bytes past `ceil(len/2)` |
| `CanonicalMessage.Decimal` | src/oracle/pricing_record.cpp:159-162 | a number prints as a non-empty run of decimal digits with no leading zero; the digits denote the number |
| `CanonicalMessage.DecimalInjective` | src/oracle/pricing_record.cpp:159-162 | two numbers print the same exactly when they are equal |
| `CanonicalMessage.Message` | src/oracle/pricing_record.cpp:157-164 | the signed text opens with `{` and closes with `}`, and holds no white space or control character |
| `CanonicalMessage.MessageDeterminesFields` | src/oracle/pricing_record.cpp:157-164 | two records have the same message exactly when version, spot, moving average and timestamp agree |
| `CanonicalMessage.MessageIgnoresSignature` | src/oracle/pricing_record.cpp:157-164 | the message does not depend on the signature bytes |
| `Validator.VerifySignature` | src/oracle/pricing_record.cpp:135-191 | `verifySignature` throws exactly on an empty or unreadable key; it returns false when no buffer can be made for the key text; otherwise it returns whether the signature verifies over the canonical message |
| `Validator.FutureBound` | src/oracle/pricing_record.cpp:220 | the latest accepted record timestamp is `bl_timestamp + diff` when that fits in 64 bits, and the sum less 2^64 when it does not |
| `Validator.Valid` | src/oracle/pricing_record.cpp:199-232 | `valid` accepts exactly an empty record, or one that passes the fork gate, the rates, the key, the signature and both timestamp checks; it throws exactly when a non-empty record with both rates reaches the signature check at or after the fork with an empty or unreadable key |
| `Validator.PreForkRejectsNonEmpty` | src/oracle/pricing_record.cpp:201-204 | below the slippage-yield fork a non-empty record is rejected whatever its signature |
| `Validator.EmptyAccepted` | src/oracle/pricing_record.cpp:206-207 | an empty record is accepted for every fork version and every pair of timestamps |
| `Validator.MissingRatesRejectedBeforeSignature` | src/oracle/pricing_record.cpp:209-217 | a non-empty record with a zero rate is rejected for any crypto, even with an empty key that would make the signature check throw |
| `Validator.SignedRecordVerdict` | src/oracle/pricing_record.cpp:214-231 | with both rates, at or after the fork and with a key that is read: accepted exactly when the signature verifies, `last_bl_timestamp < timestamp` and `timestamp <= bl_timestamp + diff`, the sum wrapping at 2^64 |
| `Validator.TimestampBoundaries` | src/oracle/pricing_record.cpp:219-229 | without wrap-around, `bl_timestamp + diff` is accepted and one more is rejected; `last_bl_timestamp` is rejected and one more is accepted |
| `Validator.FutureBoundWraps` | src/oracle/pricing_record.cpp:220 | when the sum overflows, the bound wraps below both the difference and the block timestamp |

## Left out

- OpenSSL work in `verifySignature` (lines 139-190): the PEM key parsing, the `EVP_DigestVerify*` calls with SHA-256, and creating and freeing the contexts. They are modelled only as the `Crypto` parameter. A failed `BIO_new_mem_buf` is the `NoBuffer` outcome of `readKey`, which returns false before the key is read. A digest context that cannot be created counts as a failed verification inside `digestVerify`.
- `get_config(nettype)` and the two constants `HF_VERSION_SLIPPAGE_YIELD` and `PRICING_RECORD_VALID_TIME_DIFF_FROM_BLOCK` come from configuration that is not part of this model. They are the fields of the `Config` parameter.
- `LOG_ERROR` and `ERR_print_errors_fp` only write diagnostics, so they are not modelled.
- The epee key/value machinery (`KV_SERIALIZE`, `portable_storage`, lines 41-56) is not modelled. The map is the plain `KvRecord` value, and the outcome of `in._load` is an `Option`. The status that `out.store` returns is not modelled: `Store` returns the map it would write.
- `PricingRecords.PricingRecord.Load`: signature texts longer than 128 characters are excluded by a precondition. The source has no check and would write past the buffer.
- `src/serialization/pricing_record.h` copies the raw struct memory as one blob, so its bytes depend on the platform's layout. Its `supply_data` and `asset_data` read paths only assert. It is not part of this model.
- `KvRecord.signature` is a Dafny `string`, and each of its characters stands for one byte of the `std::string`. Characters at or above 256 have no C++ counterpart, and no UTF-8 decoding is modelled.
- Locales: the model assumes the classic "C" locale. There, `ostream << uint64_t` prints plain digits with no grouping (`CanonicalMessage.Decimal`), and `strtol` treats only the C white-space characters as space (`HexCodec.IsSpace`). A node whose global locale groups digits would build a different message; this model does not cover that.
- The C++ `char` signature buffer is modelled as bytes 0-255, as `0xff & signature[i]` reads it. The model ignores whether `char` is signed.
