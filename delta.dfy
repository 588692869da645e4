/** `Delta.ByteToHexString`, the same in both snapshots of `Delta.java`: the
    uppercase base16 encoding of section 8 of RFC 4648, one pair of characters
    per byte, no separators. */
module Delta {
  import opened Base

  const HEX_ALPHABET: string := "0123456789ABCDEF"

  predicate IsUpperHexDigit(c: char) {
    '0' <= c <= '9' || 'A' <= c <= 'F'
  }

  function HexDigit(d: nat): (c: char)
    requires d < 16
    ensures IsUpperHexDigit(c)
  {
    HEX_ALPHABET[d]
  }

  /** `String.format("%02X", b)` of a Java byte: a negative byte is rendered
      as its value plus 256, so every byte gives exactly two digits. */
  function HexPair(b: int8): (s: string)
    ensures |s| == 2
  {
    [HexDigit(Unsigned(b) / 16), HexDigit(Unsigned(b) % 16)]
  }

  /** The base16 encoding of a byte sequence. */
  function Base16(s: Bytes): (r: string)
    ensures |r| == 2 * |s|
  {
    if |s| == 0 then "" else HexPair(s[0]) + Base16(s[1..])
  }

  /** Byte `k` of the input occupies characters `2k` and `2k+1` of the encoding. */
  lemma {:induction false} Base16At(s: Bytes, k: nat)
    requires k < |s|
    ensures Base16(s)[2 * k] == HexDigit(Unsigned(s[k]) / 16)
    ensures Base16(s)[2 * k + 1] == HexDigit(Unsigned(s[k]) % 16)
  {
    if k > 0 {
      Base16At(s[1..], k - 1);
      assert Base16(s) == HexPair(s[0]) + Base16(s[1..]);
    }
  }

  /** Every character of the encoding is one of `0-9A-F`. */
  lemma Base16Alphabet(s: Bytes, i: nat)
    requires i < |Base16(s)|
    ensures IsUpperHexDigit(Base16(s)[i])
  {
    Base16At(s, i / 2);
    assert i == 2 * (i / 2) || i == 2 * (i / 2) + 1;
  }

  /** `ByteToHexString`: one `%02X` pair appended per byte, in input order. */
  method ByteToHexString(byteArray: Bytes) returns (hex: string)
    ensures |hex| == 2 * |byteArray|
    ensures forall k :: 0 <= k < |byteArray| ==>
      hex[2 * k] == HexDigit(Unsigned(byteArray[k]) / 16) && hex[2 * k + 1] == HexDigit(Unsigned(byteArray[k]) % 16)
    ensures forall i :: 0 <= i < |hex| ==> IsUpperHexDigit(hex[i])
    ensures hex == Base16(byteArray)
  {
    hex := "";
    for i := 0 to |byteArray|
      invariant |hex| == 2 * i
      invariant forall k :: 0 <= k < i ==>
        hex[2 * k] == HexDigit(Unsigned(byteArray[k]) / 16) && hex[2 * k + 1] == HexDigit(Unsigned(byteArray[k]) % 16)
    {
      hex := hex + HexPair(byteArray[i]);
    }
    forall j | 0 <= j < |hex|
      ensures hex[j] == Base16(byteArray)[j] && IsUpperHexDigit(hex[j])
    {
      Base16At(byteArray, j / 2);
      assert j == 2 * (j / 2) || j == 2 * (j / 2) + 1;
    }
  }

  // ---------------------------------------------------------------------------
  // The decoding half of the base16 scheme, the partner of the encoder.

  /** The value of one character of the uppercase base16 alphabet. */
  function HexValue(c: char): (v: Option<nat>)
    ensures v.Some? <==> IsUpperHexDigit(c)
    ensures v.Some? ==> v.value < 16 && HexDigit(v.value) == c
  {
    if '0' <= c <= '9' then Some(c as nat - '0' as nat)
    else if 'A' <= c <= 'F' then Some(c as nat - 'A' as nat + 10)
    else None
  }

  lemma HexValueOfDigit(d: nat)
    requires d < 16
    ensures HexValue(HexDigit(d)) == Some(d)
  {
    assert HEX_ALPHABET[d] == ['0', '1', '2', '3', '4', '5', '6', '7', '8', '9', 'A', 'B', 'C', 'D', 'E', 'F'][d];
  }

  /** The Java byte whose unsigned value is `u`. */
  function SignedByte(u: nat): (b: int8)
    requires u < 256
    ensures Unsigned(b) == u
  {
    if u < 128 then u as int8 else (u - 256) as int8
  }

  /** Base16 decoding: `None` for an odd length or a character outside `0-9A-F`. */
  function Base16Decode(s: string): (r: Option<Bytes>)
    ensures r.Some? ==> 2 * |r.value| == |s|
  {
    if |s| == 0 then Some([])
    else if |s| == 1 then None
    else
      match (HexValue(s[0]), HexValue(s[1]), Base16Decode(s[2..]))
      case (Some(hi), Some(lo), Some(rest)) => Some([SignedByte(16 * hi + lo)] + rest)
      case _ => None
  }

  /** Decoding undoes `ByteToHexString`, negative bytes included. */
  lemma {:induction false} Base16RoundTrip(s: Bytes)
    ensures Base16Decode(Base16(s)) == Some(s)
  {
    if |s| > 0 {
      var e := Base16(s);
      assert e == HexPair(s[0]) + Base16(s[1..]);
      assert e[2..] == Base16(s[1..]);
      Base16RoundTrip(s[1..]);
      var u := Unsigned(s[0]);
      HexValueOfDigit(u / 16);
      HexValueOfDigit(u % 16);
      assert 16 * (u / 16) + u % 16 == u;
      assert SignedByte(u) == s[0];
      assert [s[0]] + s[1..] == s;
    }
  }

  /** Distinct byte sequences have distinct encodings. */
  lemma Base16Injective(a: Bytes, b: Bytes)
    requires Base16(a) == Base16(b)
    ensures a == b
  {
    Base16RoundTrip(a);
    Base16RoundTrip(b);
  }
}
