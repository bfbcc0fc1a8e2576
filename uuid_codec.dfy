/**
 * Identifiers of items: 16 raw bytes in the table, rendered as text in two ways.
 * `Hex` is Python's `bytes.hex()` (lower-case, two digits per byte, no separators);
 * `UuidText` is `str(uuid.UUID)`, the 8-4-4-4-12 form of section 4 of RFC 9562.
 * `Uuid4` stamps the version and variant bits that `uuid.uuid4()` sets on its 16
 * random bytes (section 5.4 of RFC 9562). `ParseHex` and `ParseUuidText` are the
 * inverses the two renderings are proved against.
 */
module UuidCodec {
  import opened Wrappers

  /** One octet of a Python `bytes` value. */
  type byte = x: int | 0 <= x < 256

  /** The characters `bytes.hex()` writes: 0-9 and lower-case a-f. */
  predicate IsHexDigit(c: char)
  {
    '0' <= c <= '9' || 'a' <= c <= 'f'
  }

  function HexDigit(d: int): (c: char)
    requires 0 <= d < 16
    ensures IsHexDigit(c)
  {
    if d < 10 then ('0' as int + d) as char else ('a' as int + d - 10) as char
  }

  /** The value of a lower-case hexadecimal digit, or None for any other character. */
  function DigitValue(c: char): (r: Option<int>)
    ensures r.Some? <==> IsHexDigit(c)
    ensures r.Some? ==> 0 <= r.value < 16 && HexDigit(r.value) == c
  {
    if '0' <= c <= '9' then Some(c as int - '0' as int)
    else if 'a' <= c <= 'f' then Some(c as int - 'a' as int + 10)
    else None
  }

  /** `bytes.hex()`: two lower-case hexadecimal digits per byte, high nibble first. */
  function Hex(b: seq<byte>): (s: string)
    ensures |s| == 2 * |b|
    ensures forall i :: 0 <= i < |s| ==> IsHexDigit(s[i])
  {
    if b == [] then "" else [HexDigit(b[0] / 16), HexDigit(b[0] % 16)] + Hex(b[1..])
  }

  /** Digits 2k and 2k+1 of `Hex(b)` are the high and low nibble of byte k. */
  lemma {:induction false} HexAt(b: seq<byte>, k: nat)
    requires k < |b|
    ensures Hex(b)[2 * k] == HexDigit(b[k] / 16)
    ensures Hex(b)[2 * k + 1] == HexDigit(b[k] % 16)
  {
    if k > 0 {
      HexAt(b[1..], k - 1);
      assert Hex(b) == [HexDigit(b[0] / 16), HexDigit(b[0] % 16)] + Hex(b[1..]);
    }
  }

  /** The bytes a lower-case hexadecimal string of even length spells, or None. */
  function ParseHex(s: string): (r: Option<seq<byte>>)
    ensures r.Some? ==> 2 * |r.value| == |s|
  {
    if s == [] then Some([])
    else if |s| < 2 || DigitValue(s[0]).None? || DigitValue(s[1]).None? then None
    else
      match ParseHex(s[2..])
      case Some(rest) => Some([DigitValue(s[0]).value * 16 + DigitValue(s[1]).value] + rest)
      case None => None
  }

  /** A byte's two hex digits are read back as that byte. */
  lemma ParseHexDigitPair(x: byte, t: string)
    ensures ParseHex([HexDigit(x / 16), HexDigit(x % 16)] + t)
         == match ParseHex(t) case Some(rest) => Some([x] + rest) case None => None
  {
  }

  /** `bytes.hex()` loses nothing: parsing it back gives the same bytes. */
  lemma {:induction false} HexRoundTrip(b: seq<byte>)
    ensures ParseHex(Hex(b)) == Some(b)
  {
    if b != [] {
      HexRoundTrip(b[1..]);
      ParseHexDigitPair(b[0], Hex(b[1..]));
      assert [b[0]] + b[1..] == b;
    }
  }

  /** Two byte strings with the same hex rendering are equal. */
  lemma HexInjective(a: seq<byte>, b: seq<byte>)
    requires Hex(a) == Hex(b)
    ensures a == b
  {
    HexRoundTrip(a);
    HexRoundTrip(b);
  }

  /** Positions of the four hyphens in the 36-character UUID text form. */
  predicate IsHyphenPosition(i: int)
  {
    i == 8 || i == 13 || i == 18 || i == 23
  }

  /** `str(uuid.UUID(bytes=id))`: the 32 hex digits split 8-4-4-4-12 by hyphens. */
  function UuidText(id: seq<byte>): (s: string)
    requires |id| == 16
    ensures |s| == 36
    ensures forall i :: 0 <= i < 36 ==> if IsHyphenPosition(i) then s[i] == '-' else IsHexDigit(s[i])
  {
    var h := Hex(id);
    h[..8] + "-" + h[8..12] + "-" + h[12..16] + "-" + h[16..20] + "-" + h[20..]
  }

  /** The 36-character UUID text form with its four hyphens taken out. */
  function Unhyphenate(s: string): (h: string)
    requires |s| == 36
    ensures |h| == 32
  {
    s[..8] + s[9..13] + s[14..18] + s[19..23] + s[24..]
  }

  /** Removing the hyphens from `str(UUID)` gives exactly `bytes.hex()` of the same id. */
  lemma UnhyphenateUuidText(id: seq<byte>)
    requires |id| == 16
    ensures Unhyphenate(UuidText(id)) == Hex(id)
  {
    var h := Hex(id);
    var s := UuidText(id);
    assert s[..8] == h[..8];
    assert s[9..13] == h[8..12];
    assert s[14..18] == h[12..16];
    assert s[19..23] == h[16..20];
    assert s[24..] == h[20..];
    assert h == h[..8] + h[8..12] + h[12..16] + h[16..20] + h[20..];
  }

  /** The 16 bytes a UUID text form spells, or None when the text is not of that form. */
  function ParseUuidText(s: string): (r: Option<seq<byte>>)
    ensures r.Some? ==> |r.value| == 16
  {
    if |s| == 36 && s[8] == '-' && s[13] == '-' && s[18] == '-' && s[23] == '-'
    then ParseHex(Unhyphenate(s))
    else None
  }

  /** `str(UUID)` loses nothing: parsing it back gives the same 16 bytes. */
  lemma UuidTextRoundTrip(id: seq<byte>)
    requires |id| == 16
    ensures ParseUuidText(UuidText(id)) == Some(id)
  {
    UnhyphenateUuidText(id);
    HexRoundTrip(id);
  }

  /** The two renderings of one 16-byte id differ, and agree once the hyphens are removed. */
  lemma HexAndUuidTextOfSameId(id: seq<byte>)
    requires |id| == 16
    ensures |Hex(id)| == 32 && |UuidText(id)| == 36
    ensures Hex(id) != UuidText(id)
    ensures Unhyphenate(UuidText(id)) == Hex(id)
  {
    UnhyphenateUuidText(id);
  }

  /** A version-4, variant-10 UUID in the sense of section 5.4 of RFC 9562. */
  predicate IsVersion4(id: seq<byte>)
  {
    |id| == 16 && id[6] / 16 == 4 && id[8] / 64 == 2
  }

  /**
   * What `uuid.uuid4()` does with its 16 random bytes: the high nibble of byte 6
   * becomes the version 4 and the top two bits of byte 8 become the variant 10;
   * every other bit is kept.
   */
  function Uuid4(random: seq<byte>): (id: seq<byte>)
    requires |random| == 16
    ensures IsVersion4(id)
    ensures forall i :: 0 <= i < 16 && i != 6 && i != 8 ==> id[i] == random[i]
    ensures id[6] % 16 == random[6] % 16 && id[8] % 64 == random[8] % 64
  {
    random[6 := 0x40 + random[6] % 16][8 := 0x80 + random[8] % 64]
  }

  /** Stamping leaves a version-4 id as it is, so every version-4 id is some draw's result. */
  lemma Uuid4KeepsVersion4(id: seq<byte>)
    requires IsVersion4(id)
    ensures Uuid4(id) == id
  {
  }
}
