/**
  The payload packer of the V2 shipping oracle: the tracking status
  becomes a status code (2 for delivered, 0 otherwise), the code goes into
  the last four bytes of a zero-filled 32-byte word, and the hex-decoded
  order id follows that word.  For a 32-byte order id the result is the
  contract-ABI encoding of the pair (uint256 status, bytes32 order id).
 */
module ShippingOracleV2 {
  import opened Buffers
  import opened Hex

  const Delivered: string := "DELIVERED"
  const WordSize: nat := 32
  const StatusDelivered: int := 2
  const StatusNotDelivered: int := 0

  /** The status code the packer reports for a tracking status. */
  function StatusCode(trackingStatus: string): (code: int)
    ensures code == StatusDelivered <==> trackingStatus == Delivered
    ensures code == StatusNotDelivered <==> trackingStatus != Delivered
  {
    if trackingStatus == Delivered then StatusDelivered else StatusNotDelivered
  }

  /** The contract-ABI word of a uint256: n big-endian, left-padded with zeros to 32 bytes. */
  function Uint256Word(n: nat): (w: seq<byte>)
    requires n < Pow256(WordSize)
    ensures |w| == WordSize
  {
    BigEndianBytes(n, WordSize)
  }

  /** The payload the packer returns for a tracking status and a well-formed order id. */
  function Payload(trackingStatus: string, orderId: string): (p: seq<byte>)
    requires IsHexString(orderId)
  {
    assert Pow256(WordSize) > 2 by { assert Pow256(1) == 256; PowMonotone(1, WordSize); }
    Uint256Word(StatusCode(trackingStatus)) + FromHex(orderId)
  }

  lemma {:induction false} PowMonotone(j: nat, k: nat)
    requires j <= k
    ensures Pow256(j) <= Pow256(k)
  {
    if j < k {
      PowMonotone(j, k - 1);
    }
  }

  /**
    The padded status word: a 4-byte buffer receives statusInt through
    `writeInt32BE`, and is copied into the last four bytes of a
    zero-filled 32-byte buffer.
   */
  method BuildStatusWord(statusInt: int) returns (paddedBuffer: array<byte>)
    requires MinInt32 <= statusInt <= MaxInt32
    ensures fresh(paddedBuffer)
    ensures paddedBuffer[..] == Zeros(WordSize - 4) + Int32BigEndian(statusInt)
  {
    var integerBuffer := Alloc(4);
    var _ := WriteInt32BE(integerBuffer, statusInt, 0);
    assert integerBuffer[..] == Int32BigEndian(statusInt);
    paddedBuffer := Alloc(WordSize);
    var copied := Copy(integerBuffer, paddedBuffer, WordSize - 4);
    assert copied == 4;
    assert forall i :: 0 <= i < WordSize ==>
      paddedBuffer[..][i] == (Zeros(WordSize - 4) + Int32BigEndian(statusInt))[i];
  }

  /** For a non-negative code, the padded status word is the ABI uint256 word of the code. */
  lemma StatusWordIsUint256Word(statusInt: int)
    requires 0 <= statusInt <= MaxInt32
    ensures Pow256(4) <= Pow256(WordSize)
    ensures Zeros(WordSize - 4) + Int32BigEndian(statusInt) == Uint256Word(statusInt)
  {
    assert Pow256(4) == 0x1_0000_0000;
    PowMonotone(4, WordSize);
    BigEndianBytesWiden(statusInt, WordSize - 4, 4);
  }

  /** The packer: status mapping, status word, order-id decoding and concatenation. */
  method Pack(trackingStatus: string, orderId: string) returns (buf: seq<byte>)
    requires IsHexString(orderId)
    ensures buf == Payload(trackingStatus, orderId)
  {
    var statusInt := 0;
    if trackingStatus == Delivered {
      statusInt := 2;
    }
    var paddedBuffer := BuildStatusWord(statusInt);
    var hexBuffer := FromHex(orderId);
    buf := paddedBuffer[..] + hexBuffer;
    StatusWordIsUint256Word(statusInt);
  }

  /** Byte layout of the payload: a status word, then the order id decoded byte for byte. */
  lemma PayloadLayout(trackingStatus: string, orderId: string)
    requires IsHexString(orderId)
    ensures var p := Payload(trackingStatus, orderId);
      && |p| == WordSize + |orderId| / 2
      && (forall i :: 0 <= i < WordSize - 4 ==> p[i] == 0)
      && p[WordSize - 4..WordSize] == Int32BigEndian(StatusCode(trackingStatus))
      && p[WordSize..] == FromHex(orderId)
  {
    var code := StatusCode(trackingStatus);
    StatusWordIsUint256Word(code);
    var p := Payload(trackingStatus, orderId);
    assert p[..WordSize] == Zeros(WordSize - 4) + Int32BigEndian(code);
    assert p[WordSize - 4..WordSize] == (Zeros(WordSize - 4) + Int32BigEndian(code))[WordSize - 4..];
  }

  /** Bytes 32 + i of the payload is the value of order-id digits 2i and 2i+1. */
  lemma PayloadOrderIdByte(trackingStatus: string, orderId: string, i: nat)
    requires IsHexString(orderId)
    requires i < |orderId| / 2
    ensures IsHexDigit(orderId[2 * i]) && IsHexDigit(orderId[2 * i + 1])
    ensures Payload(trackingStatus, orderId)[WordSize + i] == HexPairValue(orderId[2 * i], orderId[2 * i + 1])
  {
    FromHexAt(orderId, i);
  }

  /** The first word, read as a big-endian unsigned integer, is the status code. */
  lemma PayloadStatusValue(trackingStatus: string, orderId: string)
    requires IsHexString(orderId)
    ensures BigEndianValue(Payload(trackingStatus, orderId)[..WordSize]) == StatusCode(trackingStatus)
  {
    var code := StatusCode(trackingStatus);
    StatusWordIsUint256Word(code);
    var p := Payload(trackingStatus, orderId);
    assert p[..WordSize] == Zeros(WordSize - 4) + Int32BigEndian(code);
    BigEndianValueLeadingZeros(WordSize - 4, Int32BigEndian(code));
    Int32RoundTrip(code);
  }

  /**
    For an order id of 64 hex digits the payload is 64 bytes: the ABI
    encoding of (uint256 status code, bytes32 order id), two static words
    and nothing after them.
   */
  lemma PayloadIsAbiUint256Bytes32(trackingStatus: string, orderId: string)
    requires IsHexString(orderId) && |orderId| == 2 * WordSize
    ensures var p := Payload(trackingStatus, orderId);
      && |p| == 2 * WordSize
      && p[..WordSize] == Uint256Word(StatusCode(trackingStatus))
      && p[WordSize..] == FromHex(orderId)
  {
  }

  /**
    What the payload gives back: its first word's value is the status code,
    and the hex text of the rest is the order id in lower case.
   */
  lemma PayloadRoundTrip(trackingStatus: string, orderId: string)
    requires IsHexString(orderId)
    ensures var p := Payload(trackingStatus, orderId);
      && |p| >= WordSize
      && BigEndianValue(p[..WordSize]) == StatusCode(trackingStatus)
      && ToHex(p[WordSize..]) == LowerHex(orderId)
  {
    PayloadStatusValue(trackingStatus, orderId);
    ToHexFromHex(orderId);
    var p := Payload(trackingStatus, orderId);
    assert p[WordSize..] == FromHex(orderId);
  }

  /**
    Two payloads are equal exactly when both statuses are or both are not
    "DELIVERED", and the order ids agree up to the case of their letters:
    the payload depends on nothing else.
   */
  lemma PayloadEqualIff(status1: string, orderId1: string, status2: string, orderId2: string)
    requires IsHexString(orderId1) && IsHexString(orderId2)
    ensures Payload(status1, orderId1) == Payload(status2, orderId2)
        <==> (status1 == Delivered <==> status2 == Delivered) && LowerHex(orderId1) == LowerHex(orderId2)
  {
    var p1, p2 := Payload(status1, orderId1), Payload(status2, orderId2);
    PayloadRoundTrip(status1, orderId1);
    PayloadRoundTrip(status2, orderId2);
    FromHexInjective(orderId1, orderId2);
    if p1 == p2 {
      assert StatusCode(status1) == StatusCode(status2);
    }
    if (status1 == Delivered <==> status2 == Delivered) && LowerHex(orderId1) == LowerHex(orderId2) {
      assert StatusCode(status1) == StatusCode(status2);
    }
  }
}
