/** Byte strings and the three library renderings the ledger hashes through:
    SHA-256, lowercase hexadecimal, and the conversions of Go strings and
    integers to bytes and text. */
module Primitives {

  newtype byte = b: int | 0 <= b < 256

  type Bytes = seq<byte>

  /** A SHA-256 digest: 32 bytes. */
  type Digest = d: Bytes | |d| == 32 witness seq(32, _ => 0 as byte)

  /** SHA-256 (FIPS 180-4), left uninterpreted: any total function from
      byte strings to digests. The ledger is given one. */
  type Sha256 = Bytes -> Digest

  predicate IsHexChar(c: char) {
    '0' <= c <= '9' || 'a' <= c <= 'f'
  }

  predicate IsHexString(s: string) {
    forall i :: 0 <= i < |s| ==> IsHexChar(s[i])
  }

  /** The lowercase hexadecimal digit of a nibble. */
  function HexDigit(d: nat): (c: char)
    requires d < 16
    ensures IsHexChar(c)
  {
    if d < 10 then ('0' as int + d) as char else ('a' as int + d - 10) as char
  }

  /** The value of one lowercase hexadecimal digit. */
  function HexValue(c: char): (v: nat)
    requires IsHexChar(c)
    ensures v < 16 && HexDigit(v) == c
  {
    if c <= '9' then c as int - '0' as int else c as int - 'a' as int + 10
  }

  /** Lowercase base16 (section 8 of RFC 4648): two characters per byte,
      high nibble first. */
  function Hex(bs: Bytes): (s: string)
    ensures |s| == 2 * |bs|
    ensures IsHexString(s)
  {
    if bs == [] then []
    else [HexDigit(bs[0] as int / 16), HexDigit(bs[0] as int % 16)] + Hex(bs[1..])
  }

  /** Base16 decoding, the inverse of Hex. */
  function Unhex(s: string): (bs: Bytes)
    requires |s| % 2 == 0 && IsHexString(s)
    ensures |bs| == |s| / 2
  {
    if s == [] then []
    else [(16 * HexValue(s[0]) + HexValue(s[1])) as byte] + Unhex(s[2..])
  }

  lemma HexValueOfDigit(d: nat)
    requires d < 16
    ensures HexValue(HexDigit(d)) == d
  {
  }

  lemma {:induction false} UnhexHex(bs: Bytes)
    ensures Unhex(Hex(bs)) == bs
  {
    if bs != [] {
      var s := Hex(bs);
      var hi, lo := bs[0] as int / 16, bs[0] as int % 16;
      assert s[0] == HexDigit(hi) && s[1] == HexDigit(lo);
      HexValueOfDigit(hi);
      HexValueOfDigit(lo);
      assert 16 * hi + lo == bs[0] as int;
      assert s[2..] == Hex(bs[1..]);
      UnhexHex(bs[1..]);
    }
  }

  lemma {:induction false} HexUnhex(s: string)
    requires |s| % 2 == 0 && IsHexString(s)
    ensures Hex(Unhex(s)) == s
  {
    if s != [] {
      var hi, lo := HexValue(s[0]), HexValue(s[1]);
      var b := (16 * hi + lo) as byte;
      assert b as int / 16 == hi && b as int % 16 == lo;
      HexUnhex(s[2..]);
      assert Unhex(s) == [b] + Unhex(s[2..]);
      assert s == [s[0], s[1]] + s[2..];
    }
  }

  /** Distinct digests render to distinct hex strings. */
  lemma HexInjective(a: Bytes, b: Bytes)
    requires Hex(a) == Hex(b)
    ensures a == b
  {
    UnhexHex(a);
    UnhexHex(b);
  }

  /** UTF-8 encoding of one Unicode scalar value, the bytes Go stores for it. */
  function EncodeChar(c: char): (bs: Bytes)
    ensures 1 <= |bs| <= 4
    ensures (|bs| == 1) == (c as int < 0x80)
  {
    var n := c as int;
    if n < 0x80 then [n as byte]
    else if n < 0x800 then [(0xC0 + n / 0x40) as byte, (0x80 + n % 0x40) as byte]
    else if n < 0x10000 then
      [(0xE0 + n / 0x1000) as byte, (0x80 + n / 0x40 % 0x40) as byte, (0x80 + n % 0x40) as byte]
    else
      [(0xF0 + n / 0x40000) as byte, (0x80 + n / 0x1000 % 0x40) as byte,
       (0x80 + n / 0x40 % 0x40) as byte, (0x80 + n % 0x40) as byte]
  }

  /** The conversion []byte(s) of a Go string: its UTF-8 encoding. */
  function Utf8(s: string): (bs: Bytes)
    ensures |bs| >= |s|
  {
    if s == [] then [] else EncodeChar(s[0]) + Utf8(s[1..])
  }

  predicate IsAscii(s: string) {
    forall i :: 0 <= i < |s| ==> s[i] as int < 0x80
  }

  /** On ASCII text []byte(s) is the character codes themselves. */
  lemma {:induction false} Utf8OfAscii(s: string)
    requires IsAscii(s)
    ensures |Utf8(s)| == |s|
    ensures forall i :: 0 <= i < |s| ==> Utf8(s)[i] as int == s[i] as int
  {
    if s != [] {
      Utf8OfAscii(s[1..]);
    }
  }

  /** Go's %d rendering of a natural number: decimal digits, no leading zero. */
  function Digits(n: nat): (s: string)
    ensures |s| >= 1
    ensures forall i :: 0 <= i < |s| ==> '0' <= s[i] <= '9'
    ensures n > 0 ==> s[0] != '0'
  {
    if n < 10 then [HexDigit(n)] else Digits(n / 10) + [HexDigit(n % 10)]
  }

  /** Go's %d rendering of an int: a minus sign before the digits of a
      negative value. */
  function Decimal(n: int): (s: string)
    ensures |s| >= 1
  {
    if n < 0 then "-" + Digits(-n) else Digits(n)
  }

  function DigitsValue(s: string): nat
    requires forall i :: 0 <= i < |s| ==> '0' <= s[i] <= '9'
  {
    if s == [] then 0 else 10 * DigitsValue(s[..|s| - 1]) + (s[|s| - 1] as int - '0' as int)
  }

  /** Reads back a rendering made by Decimal. */
  function ParseDecimal(s: string): int
    requires |s| >= 1
    requires forall i :: 1 <= i < |s| ==> '0' <= s[i] <= '9'
    requires s[0] == '-' || '0' <= s[0] <= '9'
  {
    if s[0] == '-' then -(DigitsValue(s[1..]) as int) else DigitsValue(s)
  }

  lemma {:induction false} DigitsValueOfDigits(n: nat)
    ensures DigitsValue(Digits(n)) == n
  {
    if n >= 10 {
      var s := Digits(n);
      assert s[..|s| - 1] == Digits(n / 10);
      DigitsValueOfDigits(n / 10);
    }
  }

  lemma ParseDecimalOfDecimal(n: int)
    ensures ParseDecimal(Decimal(n)) == n
  {
    var s := Decimal(n);
    if n < 0 {
      assert s[1..] == Digits(-n);
      DigitsValueOfDigits(-n);
    } else {
      DigitsValueOfDigits(n);
    }
  }

  /** Distinct integers render to distinct decimal strings. */
  lemma DecimalInjective(a: int, b: int)
    requires Decimal(a) == Decimal(b)
    ensures a == b
  {
    ParseDecimalOfDecimal(a);
    ParseDecimalOfDecimal(b);
  }
}
