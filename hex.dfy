/**
  Hexadecimal text and bytes: the decoding `Buffer.from(s, "hex")` does on
  a well-formed string (an even number of hex digits of either case), and
  the lowercase encoding that undoes it.
 */
module Hex {
  import opened Buffers

  predicate IsHexDigit(c: char)
  {
    ('0' <= c <= '9') || ('a' <= c <= 'f') || ('A' <= c <= 'F')
  }

  function HexDigitValue(c: char): (d: nat)
    requires IsHexDigit(c)
    ensures d < 16
  {
    if '0' <= c <= '9' then c as int - '0' as int
    else if 'a' <= c <= 'f' then c as int - 'a' as int + 10
    else c as int - 'A' as int + 10
  }

  /** An even-length string of hex digits: the input the decoder accepts whole. */
  predicate IsHexString(s: string)
  {
    |s| % 2 == 0 && forall i :: 0 <= i < |s| ==> IsHexDigit(s[i])
  }

  /** The byte written by the two hex digits hi and lo. */
  function HexPairValue(hi: char, lo: char): (b: byte)
    requires IsHexDigit(hi) && IsHexDigit(lo)
  {
    16 * HexDigitValue(hi) + HexDigitValue(lo)
  }

  /** `Buffer.from(s, "hex")` for a well-formed s: one byte per pair of digits. */
  function FromHex(s: string): (r: seq<byte>)
    requires IsHexString(s)
    ensures |r| == |s| / 2
  {
    if s == [] then []
    else
      assert IsHexString(s[2..]) by {
        assert forall i :: 0 <= i < |s[2..]| ==> s[2..][i] == s[i + 2];
      }
      [HexPairValue(s[0], s[1])] + FromHex(s[2..])
  }

  /** The lowercase digit for a value below 16. */
  function HexChar(d: nat): (c: char)
    requires d < 16
    ensures IsHexDigit(c) && HexDigitValue(c) == d
  {
    if d < 10 then ('0' as int + d) as char else ('a' as int + d - 10) as char
  }

  /** The lowercase hex text of b, two digits per byte. */
  function ToHex(b: seq<byte>): (s: string)
    ensures |s| == 2 * |b|
    ensures IsHexString(s)
  {
    if b == [] then ""
    else [HexChar(b[0] / 16), HexChar(b[0] % 16)] + ToHex(b[1..])
  }

  /** c with an upper-case hex letter turned into its lower-case form. */
  function LowerHexChar(c: char): char
  {
    if 'A' <= c <= 'F' then (c as int - 'A' as int + 'a' as int) as char else c
  }

  function LowerHex(s: string): (r: string)
    ensures |r| == |s|
  {
    if s == [] then "" else [LowerHexChar(s[0])] + LowerHex(s[1..])
  }

  /** Byte i of the decoding is the value of digits 2i and 2i+1. */
  lemma {:induction false} FromHexAt(s: string, i: nat)
    requires IsHexString(s)
    requires i < |s| / 2
    ensures IsHexDigit(s[2 * i]) && IsHexDigit(s[2 * i + 1])
    ensures FromHex(s)[i] == HexPairValue(s[2 * i], s[2 * i + 1])
  {
    if i > 0 {
      assert IsHexString(s[2..]) by {
        assert forall j :: 0 <= j < |s[2..]| ==> s[2..][j] == s[j + 2];
      }
      FromHexAt(s[2..], i - 1);
      assert s[2..][2 * (i - 1)] == s[2 * i] && s[2..][2 * (i - 1) + 1] == s[2 * i + 1];
    }
  }

  /** Decoding the encoding of b gives b back. */
  lemma {:induction false} FromHexToHex(b: seq<byte>)
    ensures FromHex(ToHex(b)) == b
  {
    if b != [] {
      var s := ToHex(b);
      assert s[2..] == ToHex(b[1..]);
      FromHexToHex(b[1..]);
      assert HexPairValue(s[0], s[1]) == b[0];
    }
  }

  /** Encoding the decoding of s gives s with its letters in lower case. */
  lemma {:induction false} ToHexFromHex(s: string)
    requires IsHexString(s)
    ensures ToHex(FromHex(s)) == LowerHex(s)
  {
    if s != [] {
      assert IsHexString(s[2..]) by {
        assert forall i :: 0 <= i < |s[2..]| ==> s[2..][i] == s[i + 2];
      }
      ToHexFromHex(s[2..]);
      var b := FromHex(s);
      assert b[1..] == FromHex(s[2..]);
      assert IsHexDigit(s[0]) && IsHexDigit(s[1]);
      HexCharOfDigit(s[0]);
      HexCharOfDigit(s[1]);
      assert b[0] / 16 == HexDigitValue(s[0]) && b[0] % 16 == HexDigitValue(s[1]);
      assert s[1..][1..] == s[2..];
    }
  }

  lemma HexCharOfDigit(c: char)
    requires IsHexDigit(c)
    ensures HexChar(HexDigitValue(c)) == LowerHexChar(c)
  {
  }

  /** Two well-formed strings decode to the same bytes exactly when they agree up to letter case. */
  lemma FromHexInjective(s: string, t: string)
    requires IsHexString(s) && IsHexString(t)
    ensures FromHex(s) == FromHex(t) <==> LowerHex(s) == LowerHex(t)
  {
    ToHexFromHex(s);
    ToHexFromHex(t);
    if LowerHex(s) == LowerHex(t) {
      FromHexToHex(FromHex(s));
      FromHexToHex(FromHex(t));
    }
  }
}
