/**
 Well-formed UTF-8 (Table 3-7 of the Unicode Standard, chapter 3), the check
 `std::str::from_utf8` performs on a filename's raw octets: it accepts exactly
 the shortest encodings of Unicode scalar values and rejects overlong forms,
 encoded surrogates, values above U+10FFFF and truncated sequences.
 */
module Utf8 {
  import opened Wrappers
  import opened Text

  /** A continuation octet `10xxxxxx` within `lo..hi`. */
  predicate InRange(b: Byte, lo: int, hi: int) {
    lo <= b <= hi
  }

  /**
   Decodes the scalar value at the front of `bs`, returning it together with
   the number of octets it occupies, or `None` when the front is ill-formed.
   */
  function DecodeFirst(bs: seq<Byte>): (r: Option<(char, nat)>)
    requires |bs| > 0
    ensures r.Some? ==> 1 <= r.value.1 <= 4 && r.value.1 <= |bs|
  {
    var b0 := bs[0] as int;
    if b0 < 0x80 then
      Some((b0 as char, 1))
    else if 0xC2 <= b0 <= 0xDF then
      if |bs| >= 2 && InRange(bs[1], 0x80, 0xBF) then
        Some((((b0 - 0xC0) * 64 + (bs[1] as int - 0x80)) as char, 2))
      else None
    else if 0xE0 <= b0 <= 0xEF then
      var lo := if b0 == 0xE0 then 0xA0 else 0x80;
      var hi := if b0 == 0xED then 0x9F else 0xBF;
      if |bs| >= 3 && InRange(bs[1], lo, hi) && InRange(bs[2], 0x80, 0xBF) then
        Some((((b0 - 0xE0) * 4096 + (bs[1] as int - 0x80) * 64 + (bs[2] as int - 0x80)) as char, 3))
      else None
    else if 0xF0 <= b0 <= 0xF4 then
      var lo := if b0 == 0xF0 then 0x90 else 0x80;
      var hi := if b0 == 0xF4 then 0x8F else 0xBF;
      if |bs| >= 4 && InRange(bs[1], lo, hi) && InRange(bs[2], 0x80, 0xBF) && InRange(bs[3], 0x80, 0xBF) then
        Some((((b0 - 0xF0) * 0x40000 + (bs[1] as int - 0x80) * 0x1000 + (bs[2] as int - 0x80) * 64 + (bs[3] as int - 0x80)) as char, 4))
      else None
    else
      None
  }

  /** `from_utf8`: the text the octets encode, or `None` when they are not UTF-8. */
  function Decode(bs: seq<Byte>): (r: Option<string>)
    ensures r.Some? ==> |r.value| <= |bs| <= 4 * |r.value|
    decreases |bs|
  {
    if bs == [] then Some([])
    else match DecodeFirst(bs)
      case None => None
      case Some((c, n)) =>
        match Decode(bs[n..])
        case None => None
        case Some(rest) => Some([c] + rest)
  }

  /** The shortest UTF-8 encoding of one scalar value. */
  function EncodeChar(c: char): (bs: seq<Byte>)
    ensures 1 <= |bs| <= 4
  {
    var cp := c as int;
    if cp < 0x80 then [cp]
    else if cp < 0x800 then [0xC0 + cp / 64, 0x80 + cp % 64]
    else if cp < 0x10000 then [0xE0 + cp / 4096, 0x80 + (cp / 64) % 64, 0x80 + cp % 64]
    else [0xF0 + cp / 0x40000, 0x80 + (cp / 0x1000) % 64, 0x80 + (cp / 64) % 64, 0x80 + cp % 64]
  }

  /** The UTF-8 encoding of a string. */
  function Encode(s: string): seq<Byte> {
    if s == [] then [] else EncodeChar(s[0]) + Encode(s[1..])
  }

  /** The base-64 digits of a code point below `0x200000`. */
  lemma Base64Digits(cp: int)
    requires 0 <= cp
    ensures cp == (cp / 64) * 64 + cp % 64
    ensures cp / 64 == (cp / 4096) * 64 + (cp / 64) % 64
    ensures cp / 4096 == (cp / 0x40000) * 64 + (cp / 4096) % 64
    ensures cp / 4096 == (cp / 64) / 64 && cp / 0x40000 == (cp / 4096) / 64
  {
  }

  /** The front of a two-octet encoding decodes to its character. */
  lemma DecodeFirstTwo(c: char, rest: seq<Byte>)
    requires 0x80 <= c as int < 0x800
    ensures DecodeFirst(EncodeChar(c) + rest) == Some((c, 2))
  {
    Base64Digits(c as int);
  }

  /** The front of a three-octet encoding decodes to its character. */
  lemma DecodeFirstThree(c: char, rest: seq<Byte>)
    requires 0x800 <= c as int < 0x10000
    ensures DecodeFirst(EncodeChar(c) + rest) == Some((c, 3))
  {
    var cp := c as int;
    Base64Digits(cp);
    var bs := EncodeChar(c) + rest;
    assert bs[0] as int - 0xE0 == cp / 4096;
    assert bs[1] as int - 0x80 == (cp / 64) % 64;
    assert bs[2] as int - 0x80 == cp % 64;
  }

  /** The front of a four-octet encoding decodes to its character. */
  lemma DecodeFirstFour(c: char, rest: seq<Byte>)
    requires 0x10000 <= c as int
    ensures DecodeFirst(EncodeChar(c) + rest) == Some((c, 4))
  {
    var cp := c as int;
    Base64Digits(cp);
    var bs := EncodeChar(c) + rest;
    assert bs[0] as int - 0xF0 == cp / 0x40000;
    assert bs[1] as int - 0x80 == (cp / 4096) % 64;
    assert bs[2] as int - 0x80 == (cp / 64) % 64;
    assert bs[3] as int - 0x80 == cp % 64;
  }

  /** Decoding the front of an encoded character recovers it and its length. */
  lemma DecodeFirstEncodeChar(c: char, rest: seq<Byte>)
    ensures DecodeFirst(EncodeChar(c) + rest) == Some((c, |EncodeChar(c)|))
  {
    var cp := c as int;
    if cp < 0x80 {
    } else if cp < 0x800 {
      DecodeFirstTwo(c, rest);
    } else if cp < 0x10000 {
      DecodeFirstThree(c, rest);
    } else {
      DecodeFirstFour(c, rest);
    }
  }

  /** Every string survives an encode/decode round trip. */
  lemma {:induction false} DecodeEncode(s: string)
    ensures Decode(Encode(s)) == Some(s)
  {
    if s != [] {
      var e := EncodeChar(s[0]);
      var tail := Encode(s[1..]);
      DecodeFirstEncodeChar(s[0], tail);
      assert (e + tail)[|e|..] == tail;
      DecodeEncode(s[1..]);
      assert [s[0]] + s[1..] == s;
    }
  }

  /** Splitting `q * 64 + r` back into its quotient and remainder. */
  lemma DivMod64(q: int, r: int)
    requires 0 <= q && 0 <= r < 64
    ensures (q * 64 + r) / 64 == q && (q * 64 + r) % 64 == r
  {
  }

  /** A two-octet value re-encodes to its own octets. */
  lemma EncodeTwo(a: int, b: int)
    requires 2 <= a < 32 && 0 <= b < 64
    ensures EncodeChar((a * 64 + b) as char) == [0xC0 + a, 0x80 + b]
  {
    DivMod64(a, b);
  }

  /** A three-octet value re-encodes to its own octets. */
  lemma EncodeThree(a: int, b: int, d: int)
    requires 0 <= a < 16 && 0 <= b < 64 && 0 <= d < 64
    requires 0x800 <= (a * 64 + b) * 64 + d && !(0xD800 <= (a * 64 + b) * 64 + d < 0xE000)
    ensures EncodeChar(((a * 64 + b) * 64 + d) as char) == [0xE0 + a, 0x80 + b, 0x80 + d]
  {
    var cp := (a * 64 + b) * 64 + d;
    DivMod64(a * 64 + b, d);
    DivMod64(a, b);
    assert cp / 4096 == (cp / 64) / 64;
  }

  /** A four-octet value re-encodes to its own octets. */
  lemma EncodeFour(a: int, b: int, d: int, e: int)
    requires 0 <= a < 5 && 0 <= b < 64 && 0 <= d < 64 && 0 <= e < 64
    requires 0x10000 <= ((a * 64 + b) * 64 + d) * 64 + e < 0x110000
    ensures EncodeChar((((a * 64 + b) * 64 + d) * 64 + e) as char)
         == [0xF0 + a, 0x80 + b, 0x80 + d, 0x80 + e]
  {
    var cp := ((a * 64 + b) * 64 + d) * 64 + e;
    DivMod64((a * 64 + b) * 64 + d, e);
    DivMod64(a * 64 + b, d);
    DivMod64(a, b);
    assert cp / 0x1000 == (cp / 64) / 64;
    assert cp / 0x40000 == ((cp / 64) / 64) / 64;
  }

  /** Re-encoding a decoded front character reproduces exactly its octets. */
  lemma EncodeCharDecodeFirst(bs: seq<Byte>)
    requires |bs| > 0 && DecodeFirst(bs).Some?
    ensures EncodeChar(DecodeFirst(bs).value.0) == bs[..DecodeFirst(bs).value.1]
  {
    var b0 := bs[0] as int;
    if b0 < 0x80 {
    } else if b0 <= 0xDF {
      EncodeTwo(b0 - 0xC0, bs[1] as int - 0x80);
    } else if b0 <= 0xEF {
      EncodeThree(b0 - 0xE0, bs[1] as int - 0x80, bs[2] as int - 0x80);
    } else {
      EncodeFour(b0 - 0xF0, bs[1] as int - 0x80, bs[2] as int - 0x80, bs[3] as int - 0x80);
    }
  }

  /** Decoding is exact: the only octets that decode to `s` are its encoding. */
  lemma {:induction false} EncodeDecode(bs: seq<Byte>)
    requires Decode(bs).Some?
    ensures Encode(Decode(bs).value) == bs
    decreases |bs|
  {
    if bs != [] {
      var n := DecodeFirst(bs).value.1;
      DecodeCons(bs);
      EncodeCharDecodeFirst(bs);
      EncodeDecode(bs[n..]);
      EncodeCons(Decode(bs).value);
      assert bs == bs[..n] + bs[n..];
    }
  }

  /** The encoding of a non-empty text is its first character's encoding followed by the rest's. */
  lemma EncodeCons(s: string)
    requires s != []
    ensures Encode(s) == EncodeChar(s[0]) + Encode(s[1..])
  {
  }

  /** A decodable non-empty input is its first character followed by the decoded rest. */
  lemma DecodeCons(bs: seq<Byte>)
    requires bs != [] && Decode(bs).Some?
    ensures DecodeFirst(bs).Some? && Decode(bs[DecodeFirst(bs).value.1..]).Some?
    ensures Decode(bs).value != []
    ensures Decode(bs).value[0] == DecodeFirst(bs).value.0
    ensures Decode(bs).value[1..] == Decode(bs[DecodeFirst(bs).value.1..]).value
  {
  }

  /** ASCII octets are their own UTF-8 encoding. */
  lemma {:induction false} DecodeAscii(bs: seq<Byte>)
    requires forall i :: 0 <= i < |bs| ==> bs[i] < 0x80
    ensures Decode(bs).Some?
    ensures |Decode(bs).value| == |bs|
    ensures forall i :: 0 <= i < |bs| ==> Decode(bs).value[i] as int == bs[i]
  {
    if bs != [] {
      DecodeAscii(bs[1..]);
    }
  }
}
