/**
 * The hexadecimal embedding of the compiled binary: the generated loader's
 * nibble tables and decode loop, and the lower-case hexadecimal text the
 * compiler embeds (the encoding the loop is meant to invert).
 *
 * A missing table entry reads as JavaScript's `undefined`, which the bitwise
 * `|` treats as 0; so does a read past the end of the text. A store past the
 * end of the byte array is ignored, as it is for a typed array.
 */
module HexCodec {

  type Byte = bv8

  /** A lower-case hexadecimal digit. */
  predicate IsHexDigit(c: char) {
    '0' <= c <= '9' || 'a' <= c <= 'f'
  }

  /** The loader's `high_map`: each lower-case digit to its nibble in the high
      half of a byte. `HighMapIsLoaderTable` proves it is the table as listed. */
  const HighMap: map<char, Byte> := map c | IsHexDigit(c) :: DigitValue(c) << 4

  /** The loader's `low_map`: each lower-case digit to its nibble in the low
      half of a byte. `LowMapIsLoaderTable` proves it is the table as listed. */
  const LowMap: map<char, Byte> := map c | IsHexDigit(c) :: DigitValue(c)

  /** `high_map` entry by entry, as the loader lists it. */
  const HighMapListing: map<char, Byte> := map[
    '0' := 0x00, '1' := 0x10, '2' := 0x20, '3' := 0x30,
    '4' := 0x40, '5' := 0x50, '6' := 0x60, '7' := 0x70,
    '8' := 0x80, '9' := 0x90, 'a' := 0xa0, 'b' := 0xb0,
    'c' := 0xc0, 'd' := 0xd0, 'e' := 0xe0, 'f' := 0xf0]

  /** `low_map` entry by entry, as the loader lists it. */
  const LowMapListing: map<char, Byte> := map[
    '0' := 0x00, '1' := 0x01, '2' := 0x02, '3' := 0x03,
    '4' := 0x04, '5' := 0x05, '6' := 0x06, '7' := 0x07,
    '8' := 0x08, '9' := 0x09, 'a' := 0x0a, 'b' := 0x0b,
    'c' := 0x0c, 'd' := 0x0d, 'e' := 0x0e, 'f' := 0x0f]

  /** The table entry for the character at `k`, or 0 where the lookup is `undefined`. */
  function NibbleAt(m: map<char, Byte>, hex: string, k: int): Byte {
    if 0 <= k < |hex| && hex[k] in m then m[hex[k]] else 0
  }

  /** The byte the loop stores for the digit pair starting at `j`. */
  function ByteAt(hex: string, j: int): (b: Byte)
    ensures 0 <= j && j + 1 < |hex| && IsHexDigit(hex[j]) && IsHexDigit(hex[j + 1]) ==>
              b == (DigitValue(hex[j]) << 4) | DigitValue(hex[j + 1])
  {
    NibbleAt(HighMap, hex, j) | NibbleAt(LowMap, hex, j + 1)
  }

  /** The bytes the loader decodes from `hex`: one per whole pair of characters. */
  function HexBytes(hex: string): (r: seq<Byte>)
    ensures |r| == |hex| / 2
  {
    seq(|hex| / 2, i => ByteAt(hex, 2 * i))
  }

  /** The loader's decode loop: a zero-filled array of half the text's length,
      and one store per pair of characters, the last one ignored when the
      length is odd. */
  method HexDecode(hex: string) returns (bytes: array<Byte>)
    ensures fresh(bytes)
    ensures bytes[..] == HexBytes(hex)
  {
    bytes := new Byte[|hex| / 2];
    var i, j := 0, 0;
    while j < |hex|
      invariant j == 2 * i && j <= |hex| + 1
      invariant forall k :: 0 <= k < i && k < bytes.Length ==> bytes[k] == ByteAt(hex, 2 * k)
      decreases |hex| - j
    {
      if i < bytes.Length {
        bytes[i] := ByteAt(hex, j);
      }
      i, j := i + 1, j + 2;
    }
  }

  /** The lower-case hex digit of a nibble. */
  function HexDigit(v: Byte): (c: char)
    requires v < 16
    ensures IsHexDigit(c)
  {
    if v < 10 then ('0' as int + v as int) as char else ('a' as int + (v - 10) as int) as char
  }

  /** The nibble a lower-case hex digit stands for: the inverse of `HexDigit`. */
  function DigitValue(c: char): (v: Byte)
    requires IsHexDigit(c)
    ensures v < 16 && HexDigit(v) == c
  {
    if c <= '9' then (c as int - '0' as int) as Byte else (c as int - 'a' as int + 10) as Byte
  }

  /** Lower-case hexadecimal text of `b`, two digits per byte, high nibble first. */
  function HexEncode(b: seq<Byte>): (r: string)
    ensures |r| == 2 * |b|
    ensures forall i :: 0 <= i < |b| ==> r[2 * i] == HexDigit(b[i] >> 4) && r[2 * i + 1] == HexDigit(b[i] & 0xf)
  {
    if b == [] then []
    else
      var last := b[|b| - 1];
      HexEncode(b[..|b| - 1]) + [HexDigit(last >> 4), HexDigit(last & 0xf)]
  }

  lemma ValueOfHexDigit(v: Byte)
    requires v < 16
    ensures DigitValue(HexDigit(v)) == v
  {
  }

  /** The two tables read back the nibble of each digit, in the high or the low half. */
  lemma TablesInvertHexDigit(v: Byte)
    requires v < 16
    ensures HexDigit(v) in HighMap && HexDigit(v) in LowMap
    ensures HighMap[HexDigit(v)] == v << 4 && LowMap[HexDigit(v)] == v
  {
    ValueOfHexDigit(v);
  }

  lemma ListingsAt(v: Byte)
    requires v < 16
    ensures HexDigit(v) in HighMapListing && HighMapListing[HexDigit(v)] == v << 4
    ensures HexDigit(v) in LowMapListing && LowMapListing[HexDigit(v)] == v
  {
    if v == 0 {} else if v == 1 {} else if v == 2 {} else if v == 3 {}
    else if v == 4 {} else if v == 5 {} else if v == 6 {} else if v == 7 {}
    else if v == 8 {} else if v == 9 {} else if v == 10 {} else if v == 11 {}
    else if v == 12 {} else if v == 13 {} else if v == 14 {} else {}
  }

  lemma ListingKeys(c: char)
    ensures c in HighMapListing <==> IsHexDigit(c)
    ensures c in LowMapListing <==> IsHexDigit(c)
  {
  }

  /** `high_map` as the loader lists it, entry for entry. */
  lemma HighMapIsLoaderTable()
    ensures HighMap == HighMapListing
  {
    forall c
      ensures c in HighMapListing <==> c in HighMap
    {
      ListingKeys(c);
    }
    forall c | c in HighMapListing
      ensures HighMapListing[c] == HighMap[c]
    {
      ListingKeys(c);
      ListingsAt(DigitValue(c));
    }
  }

  /** `low_map` as the loader lists it, entry for entry. */
  lemma LowMapIsLoaderTable()
    ensures LowMap == LowMapListing
  {
    forall c
      ensures c in LowMapListing <==> c in LowMap
    {
      ListingKeys(c);
    }
    forall c | c in LowMapListing
      ensures LowMapListing[c] == LowMap[c]
    {
      ListingKeys(c);
      ListingsAt(DigitValue(c));
    }
  }

  lemma NibblesRecombine(x: Byte)
    ensures ((x >> 4) << 4) | (x & 0xf) == x
  {
  }

  /** A high and a low nibble, put together and taken apart again. */
  lemma NibblesSeparate(v: Byte, w: Byte)
    requires v < 16 && w < 16
    ensures ((v << 4) | w) >> 4 == v
    ensures ((v << 4) | w) & 0xf == w
  {
  }

  /** The byte stored for a pair of lower-case digits. */
  lemma NibblesAsNumber(v: Byte, w: Byte)
    requires v < 16 && w < 16
    ensures ((v << 4) | w) as int == 16 * v as int + w as int
  {
    assert (v << 4) | w == v * 16 + w;
  }

  /** As a number, the byte stored for two lower-case digits is 16 times the
      first digit's value plus the second's. */
  lemma ByteOfDigitsAsNumber(hex: string, j: int)
    requires 0 <= j && j + 1 < |hex| && IsHexDigit(hex[j]) && IsHexDigit(hex[j + 1])
    ensures ByteAt(hex, j) as int == 16 * DigitValue(hex[j]) as int + DigitValue(hex[j + 1]) as int
  {
    var v, w := DigitValue(hex[j]), DigitValue(hex[j + 1]);
    assert ByteAt(hex, j) == (v << 4) | w;
    NibblesAsNumber(v, w);
  }

  /** The digit pair written for one byte is read back as that byte. */
  lemma ByteOfDigitPair(hex: string, j: int, x: Byte)
    requires 0 <= j && j + 1 < |hex|
    requires hex[j] == HexDigit(x >> 4) && hex[j + 1] == HexDigit(x & 0xf)
    ensures ByteAt(hex, j) == x
  {
    TablesInvertHexDigit(x >> 4);
    TablesInvertHexDigit(x & 0xf);
    NibblesRecombine(x);
  }

  lemma DecodeOfEncodeAt(b: seq<Byte>, i: int)
    requires 0 <= i < |b|
    ensures |HexBytes(HexEncode(b))| == |b| && HexBytes(HexEncode(b))[i] == b[i]
  {
    ByteOfDigitPair(HexEncode(b), 2 * i, b[i]);
  }

  /** Decoding the embedded text gives back the binary, byte for byte. */
  lemma DecodeOfEncode(b: seq<Byte>)
    ensures HexBytes(HexEncode(b)) == b
  {
    forall i | 0 <= i < |b|
      ensures HexBytes(HexEncode(b))[i] == b[i]
    {
      DecodeOfEncodeAt(b, i);
    }
  }

  predicate IsHexText(hex: string) {
    forall k :: 0 <= k < |hex| ==> IsHexDigit(hex[k])
  }

  /** The byte read from two digits is written back as the same two digits. */
  lemma DigitsOfByte(h: char, l: char)
    requires IsHexDigit(h) && IsHexDigit(l)
    ensures var x := (DigitValue(h) << 4) | DigitValue(l);
            HexDigit(x >> 4) == h && HexDigit(x & 0xf) == l
  {
    NibblesSeparate(DigitValue(h), DigitValue(l));
  }

  /** The byte read from a pair of lower-case digits is written back as the same pair. */
  lemma PairRoundTrip(hex: string, j: int)
    requires 0 <= j && j + 1 < |hex| && IsHexDigit(hex[j]) && IsHexDigit(hex[j + 1])
    ensures HexDigit(ByteAt(hex, j) >> 4) == hex[j] && HexDigit(ByteAt(hex, j) & 0xf) == hex[j + 1]
  {
    DigitsOfByte(hex[j], hex[j + 1]);
  }

  lemma EncodedPairAt(b: seq<Byte>, i: int, h: char, l: char)
    requires 0 <= i < |b| && HexDigit(b[i] >> 4) == h && HexDigit(b[i] & 0xf) == l
    ensures HexEncode(b)[2 * i] == h && HexEncode(b)[2 * i + 1] == l
  {
  }

  lemma EncodeOfDecodeAt(hex: string, i: int)
    requires IsHexText(hex) && |hex| % 2 == 0 && 0 <= i < |hex| / 2
    ensures |HexEncode(HexBytes(hex))| == |hex|
    ensures HexEncode(HexBytes(hex))[2 * i] == hex[2 * i]
    ensures HexEncode(HexBytes(hex))[2 * i + 1] == hex[2 * i + 1]
  {
    var b := HexBytes(hex);
    assert b[i] == ByteAt(hex, 2 * i);
    PairRoundTrip(hex, 2 * i);
    EncodedPairAt(b, i, hex[2 * i], hex[2 * i + 1]);
  }

  /** Lower-case hex text of even length is exactly the encoding of what it decodes to. */
  lemma EncodeOfDecode(hex: string)
    requires IsHexText(hex) && |hex| % 2 == 0
    ensures HexEncode(HexBytes(hex)) == hex
  {
    var r := HexEncode(HexBytes(hex));
    assert |r| == |hex|;
    forall k | 0 <= k < |hex|
      ensures r[k] == hex[k]
    {
      var i := k / 2;
      EncodeOfDecodeAt(hex, i);
      assert k == 2 * i || k == 2 * i + 1;
    }
  }

  /** With an odd length the last character is never used. */
  lemma OddLengthDropsLast(hex: string)
    requires |hex| % 2 == 1
    ensures HexBytes(hex) == HexBytes(hex[..|hex| - 1])
  {
    var even := hex[..|hex| - 1];
    forall i | 0 <= i < |hex| / 2
      ensures ByteAt(hex, 2 * i) == ByteAt(even, 2 * i)
    {
      assert 2 * i + 1 < |even|;
      assert hex[2 * i] == even[2 * i] && hex[2 * i + 1] == even[2 * i + 1];
    }
  }

  /** The embedded text holds no quotation mark, so it stays inside its
      string literal, and it is lower-case hex. */
  lemma EncodeIsPlainHex(b: seq<Byte>)
    ensures IsHexText(HexEncode(b))
    ensures '"' !in HexEncode(b)
  {
    var r := HexEncode(b);
    forall k | 0 <= k < |r|
      ensures IsHexDigit(r[k])
    {
      var i := k / 2;
      if k == 2 * i {
        assert r[k] == HexDigit(b[i] >> 4);
      } else {
        assert k == 2 * i + 1;
        assert r[k] == HexDigit(b[i] & 0xf);
      }
    }
  }

  /** An upper-case digit has no table entry and reads as 0. */
  lemma UpperCaseReadsAsZero()
    ensures HexBytes("A1") == [0x01]
    ensures HexBytes("ff") == [0xff]
  {
  }
}
