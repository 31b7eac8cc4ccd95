/** Lowercase hexadecimal rendering of byte strings, as written in the source with
    `b.toString(16).padStart(2, '0')` joined over a `Uint8Array`. */
module Hex {
  import opened Wrappers

  type Byte = x: int | 0 <= x < 256

  predicate IsLowerHexDigit(c: char) {
    ('0' <= c <= '9') || ('a' <= c <= 'f')
  }

  function HexDigit(d: int): (c: char)
    requires 0 <= d < 16
    ensures IsLowerHexDigit(c)
  {
    "0123456789abcdef"[d]
  }

  /** The value of one hexadecimal digit; `None` for any other character. */
  function DigitValue(c: char): (r: Option<int>)
    ensures r.Some? <==> IsLowerHexDigit(c)
    ensures r.Some? ==> 0 <= r.value < 16
  {
    if '0' <= c <= '9' then Some(c as int - '0' as int)
    else if 'a' <= c <= 'f' then Some(c as int - 'a' as int + 10)
    else None
  }

  lemma DigitValueOfHexDigit(d: int)
    requires 0 <= d < 16
    ensures DigitValue(HexDigit(d)) == Some(d)
  {
  }

  /** Two characters per byte, high nibble first, zero-padded. */
  function ByteToHex(b: Byte): string {
    [HexDigit(b / 16), HexDigit(b % 16)]
  }

  function HexEncode(bytes: seq<Byte>): (r: string)
    ensures |r| == 2 * |bytes|
    ensures forall i | 0 <= i < |r| :: IsLowerHexDigit(r[i])
  {
    if |bytes| == 0 then [] else ByteToHex(bytes[0]) + HexEncode(bytes[1..])
  }

  /** Reads a lowercase hex string back into bytes: the inverse of `HexEncode`. */
  function HexDecode(s: string): Option<seq<Byte>>
    decreases |s|
  {
    if |s| == 0 then Some([])
    else if |s| == 1 then None
    else
      match (DigitValue(s[0]), DigitValue(s[1]))
      case (Some(hi), Some(lo)) =>
        (match HexDecode(s[2..])
         case Some(rest) => Some([(16 * hi + lo) as Byte] + rest)
         case None => None)
      case _ => None
  }

  /** Decoding an encoding gives the bytes back. */
  lemma {:induction false} HexRoundTrip(bytes: seq<Byte>)
    ensures HexDecode(HexEncode(bytes)) == Some(bytes)
  {
    if |bytes| > 0 {
      var b := bytes[0];
      var s := HexEncode(bytes);
      assert s == ByteToHex(b) + HexEncode(bytes[1..]);
      assert s[2..] == HexEncode(bytes[1..]);
      DigitValueOfHexDigit(b / 16);
      DigitValueOfHexDigit(b % 16);
      HexRoundTrip(bytes[1..]);
      assert [b] + bytes[1..] == bytes;
    }
  }

  /** A lowercase hex digit is the rendering of its value. */
  lemma HexDigitOfValue(c: char)
    requires IsLowerHexDigit(c)
    ensures HexDigit(DigitValue(c).value) == c
  {
    var d := DigitValue(c).value;
    if '0' <= c <= '9' {
      assert "0123456789"[d] == c;
      assert "0123456789abcdef"[d] == "0123456789"[d];
    } else {
      assert "abcdef"[d - 10] == c;
      assert "0123456789abcdef"[d] == "abcdef"[d - 10];
    }
  }

  /** A string that decodes is the encoding of what it decodes to: lowercase hex has exactly
      one spelling per byte string. */
  lemma {:induction false} HexDecodeInverse(s: string, bytes: seq<Byte>)
    requires HexDecode(s) == Some(bytes)
    ensures HexEncode(bytes) == s
    decreases |s|
  {
    if |s| > 0 {
      var hi, lo := DigitValue(s[0]).value, DigitValue(s[1]).value;
      var rest := HexDecode(s[2..]).value;
      assert bytes == [(16 * hi + lo) as Byte] + rest;
      HexDecodeInverse(s[2..], rest);
      HexDigitOfValue(s[0]);
      HexDigitOfValue(s[1]);
      var b := bytes[0];
      assert b / 16 == hi && b % 16 == lo;
      assert bytes[1..] == rest;
      assert s == [s[0], s[1]] + s[2..];
    }
  }

  /** Different byte strings never share an encoding. */
  lemma HexEncodeInjective(a: seq<Byte>, b: seq<Byte>)
    requires HexEncode(a) == HexEncode(b)
    ensures a == b
  {
    HexRoundTrip(a);
    HexRoundTrip(b);
  }
}
