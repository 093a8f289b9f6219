# Shipping oracle payload packer

A Dafny model of the payload packer in the V2 shipping oracle script. The
script runs inside a serverless oracle sandbox and fetches a parcel's
tracking status. It then returns a binary payload for a smart contract
in three steps:

1. The tracking status string becomes a status code: 2 when it is
   `"DELIVERED"`, 0 otherwise.
2. The code is written as a 32-bit big-endian integer into a 4-byte buffer.
   The buffer is copied into the last four bytes of a zero-filled 32-byte
   word.
3. The order id, a string of hex digits, is decoded to bytes and appended
   after that word.

For an order id of 64 hex digits the 64-byte result is the contract-ABI
encoding of the pair `(uint256 status, bytes32 orderId)`.

The model has three modules:

- `Buffers` (`buffers.dfy`): the Node `Buffer` operations the packer uses,
  as methods over `array<byte>`:
  - `Alloc`: zero-filled allocation;
  - `WriteInt32BE`: writes four bytes in place;
  - `Copy`: an in-place copy that changes no other index.

  The module also holds the big-endian functions that specify them and the
  lemmas about those functions.
- `Hex` (`hex.dfy`): `FromHex`, what `Buffer.from(s, "hex")` computes for a
  well-formed string. It also holds `ToHex`, the lowercase encoding, which
  is its inverse.
- `ShippingOracleV2` (`shipping_oracle_v2.dfy`): the status mapping, the
  in-place build of the status word, the `Pack` method that follows the
  script step by step, and the `Payload` function it is proved equal to.
  The lemmas state the payload's byte layout and what can be read back
  from it.

`Pack` is proved equal to `Payload(trackingStatus, orderId)`. So the
payload is a function of the two inputs alone: no clock, randomness or
other state is involved.

## Model

| member | source | states |
|---|---|---|
| ShippingOracleV2.StatusCode | lambdas/shipping-oracleV2.js:21-24 | the code is 2 exactly when the status equals "DELIVERED" and 0 exactly when it does not, so it is always 0 or 2 |
| Buffers.Alloc | lambdas/shipping-oracleV2.js:28 | a freshly allocated buffer of the requested size whose bytes are all zero |
| Buffers.WriteInt32BE | lambdas/shipping-oracleV2.js:27 | the four bytes at the offset become the big-endian two's complement form of the value; every other byte is unchanged; the returned offset is the old one plus 4 |
| Buffers.Int32RoundTrip | lambdas/shipping-oracleV2.js:27 | the stored bytes read as unsigned give the value's 32-bit two's complement pattern, and read as signed 32-bit give the value back |
| Buffers.Copy | lambdas/shipping-oracleV2.js:29 | copies min(source length, room left in target) bytes, or none when the start is past the end; byte i of the target is source byte i - targetStart inside that range and unchanged outside it |
| Buffers.BigEndianRoundTrip | lambdas/shipping-oracleV2.js:27-29 | writing a value that fits in w bytes big-endian and reading it back gives the value |
| Buffers.BigEndianBytesWiden | lambdas/shipping-oracleV2.js:28-29 | a value that fits in m bytes, written in k + m bytes, is k zero bytes followed by its m-byte form |
| Buffers.BigEndianValueLeadingZeros | lambdas/shipping-oracleV2.js:28-29 | leading zero bytes do not change the big-endian value of a byte string |
| ShippingOracleV2.BuildStatusWord | lambdas/shipping-oracleV2.js:26-29 | a fresh 32-byte buffer: 28 zero bytes followed by the 32-bit big-endian form of the status code |
| ShippingOracleV2.StatusWordIsUint256Word | lambdas/shipping-oracleV2.js:26-29 | for a non-negative code the padded word equals the ABI uint256 word of the code (32-byte big-endian, left-padded with zeros) |
| Hex.FromHex | lambdas/shipping-oracleV2.js:31 | decoding an even-length hex string yields half as many bytes |
| Hex.FromHexAt | lambdas/shipping-oracleV2.js:31 | decoded byte i is 16 times the value of digit 2i plus the value of digit 2i+1 |
| Hex.FromHexToHex | lambdas/shipping-oracleV2.js:31 | decoding the lowercase hex text of any byte string gives that byte string back |
| Hex.ToHexFromHex | lambdas/shipping-oracleV2.js:31 | encoding the decoding of a well-formed string gives the string with its letters in lower case |
| Hex.FromHexInjective | lambdas/shipping-oracleV2.js:31 | two well-formed strings decode to the same bytes exactly when they agree up to letter case |
| ShippingOracleV2.Pack | lambdas/shipping-oracleV2.js:21-33 | the packer, step by step, returns exactly Payload(trackingStatus, orderId), a function of the two inputs alone |
| ShippingOracleV2.PayloadLayout | lambdas/shipping-oracleV2.js:28-32 | the payload is 32 plus half the order-id length bytes long; bytes 0-27 are zero, bytes 28-31 are the 32-bit big-endian status code, and the decoded order id follows from byte 32 on |
| ShippingOracleV2.PayloadOrderIdByte | lambdas/shipping-oracleV2.js:31-32 | payload byte 32 + i is the value of order-id hex digits 2i and 2i+1 |
| ShippingOracleV2.PayloadStatusValue | lambdas/shipping-oracleV2.js:26-32 | the first 32 bytes of the payload read as a big-endian unsigned integer give the status code |
| ShippingOracleV2.PayloadIsAbiUint256Bytes32 | lambdas/shipping-oracleV2.js:31-32 | for a 64-digit order id the payload is exactly 64 bytes: the uint256 word of the status code followed by the 32 order-id bytes verbatim |
| ShippingOracleV2.PayloadRoundTrip | lambdas/shipping-oracleV2.js:19-33 | the status code and the lowercase order id can both be read back from the payload |
| ShippingOracleV2.PayloadEqualIff | lambdas/shipping-oracleV2.js:19-33 | two payloads are equal exactly when both statuses are, or both are not, "DELIVERED" and the order ids agree up to letter case |

## Left out

- The HTTP request to the tracking API, the injected API key, the `args`
  parsing, the `console.log` call and the `throw` on an API error
  (lambdas/shipping-oracleV2.js:1-17, 20). These are I/O and sandbox
  plumbing. The tracking status enters the model as a plain string
  parameter.
- lambdas/shipping-oracle.js. It makes one call to an ABI encoder whose
  code is not part of this model, with arguments built from names the
  script never defines. So there is no behaviour of its own to model.
- A general head/tail ABI encoder with dynamic offsets and padded tails.
  No file of the repository implements one.
- Hex.FromHex: modelled only for an even-length string of hex digits, with
  that as its precondition. What Node's decoder does with a `0x` prefix, an
  odd number of digits or a non-hex character is library behaviour the
  script does not rely on. The same precondition holds for `Pack` and
  `Payload`.
- Buffers.WriteInt32BE: requires the value to be a signed 32-bit integer
  and the four bytes to fit in the buffer. Node throws a range error
  otherwise. The packer only writes 0 or 2 at offset 0 of a 4-byte buffer,
  so that error path is never reached.
- Buffers.Copy: models only the call form the packer uses. The source start
  is 0 and the source end is the source length; the optional source
  offsets are not modelled.
- The final `Buffer.concat` is modelled as a sequence concatenation.
  `Pack` returns the bytes as a `seq<byte>`, not as a new buffer object.
