/**
  The few operations of Node's `Buffer` that the shipping oracle's payload
  packer uses: zero-filled allocation, `writeInt32BE` and `copy`, over
  arrays of bytes, together with the big-endian reading and writing of
  unsigned integers that specifies them.
 */
module Buffers {

  type byte = x: int | 0 <= x < 256

  const MinInt32: int := -0x8000_0000
  const MaxInt32: int := 0x7FFF_FFFF

  /** 256 to the power k: one more than the largest k-byte unsigned value. */
  function Pow256(k: nat): (p: nat)
    ensures p > 0
  {
    if k == 0 then 1 else 256 * Pow256(k - 1)
  }

  function Min(a: int, b: int): int { if a <= b then a else b }

  /** n zero bytes: the contents of a freshly allocated buffer. */
  function Zeros(n: nat): (z: seq<byte>)
    ensures |z| == n
    ensures forall i :: 0 <= i < n ==> z[i] == 0
  {
    seq(n, _ => 0)
  }

  /** The value of s read as a big-endian unsigned integer. */
  function BigEndianValue(s: seq<byte>): nat
  {
    if s == [] then 0 else BigEndianValue(s[..|s| - 1]) * 256 + s[|s| - 1]
  }

  /** The `width` low-order bytes of n, most significant first. */
  function BigEndianBytes(n: nat, width: nat): (r: seq<byte>)
    ensures |r| == width
  {
    if width == 0 then [] else BigEndianBytes(n / 256, width - 1) + [n % 256]
  }

  /** The 32-bit two's complement bit pattern of a signed 32-bit value. */
  function TwosComplement32(v: int): (u: nat)
    requires MinInt32 <= v <= MaxInt32
    ensures u < 0x1_0000_0000
    ensures 0 <= v ==> u == v
    ensures v < 0 ==> u == v + 0x1_0000_0000
  {
    if v < 0 then v + 0x1_0000_0000 else v
  }

  /** The four bytes `writeInt32BE` stores for v. */
  function Int32BigEndian(v: int): (r: seq<byte>)
    requires MinInt32 <= v <= MaxInt32
    ensures |r| == 4
  {
    BigEndianBytes(TwosComplement32(v), 4)
  }

  /** The value `readInt32BE` gives for four bytes. */
  function ReadInt32BigEndian(b: seq<byte>): (v: int)
    requires |b| == 4
  {
    var u := BigEndianValue(b);
    if u > MaxInt32 then u - 0x1_0000_0000 else u
  }

  /** Writing n in `width` bytes and reading them back gives n, when n fits. */
  lemma {:induction false} BigEndianRoundTrip(n: nat, width: nat)
    requires n < Pow256(width)
    ensures BigEndianValue(BigEndianBytes(n, width)) == n
  {
    if width > 0 {
      var prefix := BigEndianBytes(n / 256, width - 1);
      BigEndianRoundTrip(n / 256, width - 1);
      assert (prefix + [n % 256])[..width - 1] == prefix;
    }
  }

  lemma {:induction false} BigEndianBytesOfZero(width: nat)
    ensures BigEndianBytes(0, width) == Zeros(width)
  {
    if width > 0 {
      BigEndianBytesOfZero(width - 1);
    }
  }

  /** A value that fits in m bytes, written in k + m bytes, is k zero bytes followed by its m-byte form. */
  lemma {:induction false} BigEndianBytesWiden(n: nat, k: nat, m: nat)
    requires n < Pow256(m)
    ensures BigEndianBytes(n, k + m) == Zeros(k) + BigEndianBytes(n, m)
  {
    if m == 0 {
      BigEndianBytesOfZero(k);
    } else {
      BigEndianBytesWiden(n / 256, k, m - 1);
      assert Zeros(k) + BigEndianBytes(n / 256, m - 1) + [n % 256]
          == Zeros(k) + (BigEndianBytes(n / 256, m - 1) + [n % 256]);
    }
  }

  /** Leading zero bytes do not change a big-endian value. */
  lemma {:induction false} BigEndianValueLeadingZeros(k: nat, s: seq<byte>)
    ensures BigEndianValue(Zeros(k) + s) == BigEndianValue(s)
  {
    if s == [] {
      assert Zeros(k) + s == Zeros(k);
      BigEndianBytesOfZero(k);
      BigEndianRoundTrip(0, k);
    } else {
      var t := Zeros(k) + s;
      assert t[..|t| - 1] == Zeros(k) + s[..|s| - 1];
      BigEndianValueLeadingZeros(k, s[..|s| - 1]);
    }
  }

  /** `readInt32BE` undoes `writeInt32BE`. */
  lemma Int32RoundTrip(v: int)
    requires MinInt32 <= v <= MaxInt32
    ensures BigEndianValue(Int32BigEndian(v)) == TwosComplement32(v)
    ensures ReadInt32BigEndian(Int32BigEndian(v)) == v
  {
    assert Pow256(4) == 0x1_0000_0000;
    BigEndianRoundTrip(TwosComplement32(v), 4);
  }

  /** `Buffer.alloc(size)`: a new buffer of `size` bytes, all zero. */
  method Alloc(size: nat) returns (buf: array<byte>)
    ensures fresh(buf)
    ensures buf[..] == Zeros(size)
  {
    buf := new byte[size](_ => 0);
  }

  /**
    `buf.writeInt32BE(value, offset)`: stores value as four big-endian
    two's complement bytes at offset and returns the offset after them.
   */
  method WriteInt32BE(buf: array<byte>, value: int, offset: nat) returns (next: nat)
    requires MinInt32 <= value <= MaxInt32
    requires offset + 4 <= buf.Length
    modifies buf
    ensures next == offset + 4
    ensures buf[offset..offset + 4] == Int32BigEndian(value)
    ensures forall i :: 0 <= i < buf.Length && !(offset <= i < offset + 4) ==> buf[i] == old(buf[i])
  {
    var u := TwosComplement32(value);
    buf[offset] := u / 0x100_0000;
    buf[offset + 1] := u / 0x1_0000 % 256;
    buf[offset + 2] := u / 256 % 256;
    buf[offset + 3] := u % 256;
    assert buf[offset..offset + 4] == [u / 0x100_0000, u / 0x1_0000 % 256, u / 256 % 256, u % 256];
    var u1, u2, u3 := u / 256, u / 256 / 256, u / 256 / 256 / 256;
    assert u2 == u / 0x1_0000 && u3 == u / 0x100_0000 && u3 < 256;
    assert BigEndianBytes(u3, 1) == [u3];
    assert BigEndianBytes(u2, 2) == [u3, u2 % 256];
    assert BigEndianBytes(u1, 3) == [u3, u2 % 256, u1 % 256];
    assert BigEndianBytes(u, 4) == [u3, u2 % 256, u1 % 256, u % 256];
    next := offset + 4;
  }

  /**
    `source.copy(target, targetStart)`: copies as many leading bytes of
    source as fit into target from targetStart on, and returns how many
    it copied; no byte of target outside that range changes.
   */
  method Copy(source: array<byte>, target: array<byte>, targetStart: nat) returns (copied: nat)
    modifies target
    ensures copied == if targetStart < target.Length then Min(source.Length, target.Length - targetStart) else 0
    ensures forall i :: 0 <= i < target.Length ==>
      target[i] == if targetStart <= i < targetStart + copied then old(source[i - targetStart]) else old(target[i])
  {
    var src := source[..];
    copied := if targetStart < target.Length then Min(source.Length, target.Length - targetStart) else 0;
    var k := 0;
    while k < copied
      invariant 0 <= k <= copied
      invariant forall i :: 0 <= i < target.Length ==>
        target[i] == if targetStart <= i < targetStart + k then src[i - targetStart] else old(target[i])
    {
      target[targetStart + k] := src[k];
      k := k + 1;
    }
  }
}
