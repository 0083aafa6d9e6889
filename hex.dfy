/**
 * Hex strings as the TypeScript records use them: `bufferToHex` writes "0x" and lower-case
 * digits, and Node's `Buffer.from(s, 'hex')` reads pairs of digits of either case, stopping
 * at the first pair that is not two hex digits and ignoring an odd last digit.
 */
module Hex {
  import opened Wrappers
  import opened Types

  function HexDigit(v: nat): (c: char)
    requires v < 16
  {
    if v < 10 then (48 + v) as char else (87 + v) as char
  }

  function HexValue(c: char): (r: Option<nat>)
    ensures r.Some? ==> r.value < 16
  {
    if '0' <= c <= '9' then Some(c as int - 48)
    else if 'a' <= c <= 'f' then Some(c as int - 87)
    else if 'A' <= c <= 'F' then Some(c as int - 55)
    else None
  }

  /** Lower-case hex, two digits per byte, most significant digit first. */
  function HexEncode(b: Bytes): (s: string)
    ensures |s| == 2 * |b|
  {
    if b == [] then "" else [HexDigit(b[0] / 16), HexDigit(b[0] % 16)] + HexEncode(b[1..])
  }

  /** `Buffer.from(s, 'hex')`: lenient, it never fails but stops at the first bad pair. */
  function HexDecode(s: string): (b: Bytes)
    ensures 2 * |b| <= |s|
    decreases |s|
  {
    if |s| < 2 then []
    else match (HexValue(s[0]), HexValue(s[1]))
      case (Some(hi), Some(lo)) => [hi * 16 + lo] + HexDecode(s[2..])
      case _ => []
  }

  /** `s.replace(/^0x/i, '')`: drops one leading "0x" or "0X". */
  function StripHexPrefix(s: string): string
  {
    if |s| >= 2 && s[0] == '0' && (s[1] == 'x' || s[1] == 'X') then s[2..] else s
  }

  /** `bufferToHex`. */
  function BufferToHex(b: Bytes): string
  {
    "0x" + HexEncode(b)
  }

  /** Every character `HexEncode` writes is a lower-case hex digit. */
  lemma {:induction false} HexEncodeDigits(b: Bytes)
    ensures forall i :: 0 <= i < |HexEncode(b)| ==>
      HexEncode(b)[i] in "0123456789abcdef" && HexValue(HexEncode(b)[i]).Some?
  {
    if b != [] {
      HexEncodeDigits(b[1..]);
      var s := HexEncode(b);
      assert s[2..] == HexEncode(b[1..]);
    }
  }

  lemma {:induction false} HexDecodeEncode(b: Bytes)
    ensures HexDecode(HexEncode(b)) == b
  {
    if b != [] {
      var s := HexEncode(b);
      assert s[2..] == HexEncode(b[1..]);
      assert HexValue(s[0]) == Some(b[0] / 16);
      assert HexValue(s[1]) == Some(b[0] % 16);
      HexDecodeEncode(b[1..]);
      assert [b[0]] + b[1..] == b;
    }
  }

  /** Hex written by `bufferToHex` reads back the same with or without its "0x". */
  lemma HexPrefixIsOptional(b: Bytes)
    ensures StripHexPrefix(BufferToHex(b)) == HexEncode(b)
    ensures StripHexPrefix(HexEncode(b)) == HexEncode(b)
  {
    assert BufferToHex(b)[2..] == HexEncode(b);
    HexEncodeDigits(b);
    if |HexEncode(b)| >= 2 {
      assert HexEncode(b)[1] in "0123456789abcdef";
    }
  }
}
