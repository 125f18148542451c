/**
 * UTF-8 (section 3 of RFC 3629) as the lexer emits it for `\u{...}`.
 * The source builds bytes with shifts, masks and ors on disjoint bit fields; here `>> 6` is `/ 64`,
 * `& 0x3F` is `% 64` and or-ing a field into cleared bits is addition. A byte is a char below U+0100.
 */
module Utf8 {

  predicate IsScalar(cp: int) {
    0 <= cp <= 0x10ffff && !(0xd800 <= cp <= 0xdfff)
  }

  function Byte(n: int): (c: char)
    requires 0 <= n < 256
    ensures c as int == n
  {
    n as char
  }

  function Encode(cp: int): (bs: string)
    requires IsScalar(cp)
    ensures 1 <= |bs| <= 4
    ensures |bs| > 1 ==> cp >= 0x80
  {
    if cp <= 0x7f then
      [Byte(cp)]
    else if cp <= 0x7ff then
      [Byte(0xc0 + cp / 64), Byte(0x80 + cp % 64)]
    else if cp <= 0xffff then
      [Byte(0xe0 + cp / 4096), Byte(0x80 + cp / 64 % 64), Byte(0x80 + cp % 64)]
    else
      [Byte(0xf0 + cp / 262144), Byte(0x80 + cp / 4096 % 64), Byte(0x80 + cp / 64 % 64), Byte(0x80 + cp % 64)]
  }

  predicate IsTail(c: char) { 0x80 <= c as int <= 0xbf }

  /** The byte sequences of one character in the syntax of section 4 of RFC 3629. */
  predicate WellFormed(bs: string) {
    if |bs| == 1 then bs[0] as int <= 0x7f
    else if |bs| == 2 then 0xc2 <= bs[0] as int <= 0xdf && IsTail(bs[1])
    else if |bs| == 3 then
      && IsTail(bs[1]) && IsTail(bs[2])
      && 0xe0 <= bs[0] as int <= 0xef
      && (bs[0] as int == 0xe0 ==> bs[1] as int >= 0xa0)
      && (bs[0] as int == 0xed ==> bs[1] as int <= 0x9f)
    else
      && |bs| == 4
      && IsTail(bs[1]) && IsTail(bs[2]) && IsTail(bs[3])
      && 0xf0 <= bs[0] as int <= 0xf4
      && (bs[0] as int == 0xf0 ==> bs[1] as int >= 0x90)
      && (bs[0] as int == 0xf4 ==> bs[1] as int <= 0x8f)
  }

  /** The scalar value of a well-formed sequence: the payload bits, most significant first. */
  function Decode(bs: string): int
    requires WellFormed(bs)
  {
    if |bs| == 1 then bs[0] as int
    else if |bs| == 2 then (bs[0] as int - 0xc0) * 64 + (bs[1] as int - 0x80)
    else if |bs| == 3 then
      (bs[0] as int - 0xe0) * 4096 + (bs[1] as int - 0x80) * 64 + (bs[2] as int - 0x80)
    else
      (bs[0] as int - 0xf0) * 262144 + (bs[1] as int - 0x80) * 4096
      + (bs[2] as int - 0x80) * 64 + (bs[3] as int - 0x80)
  }

  /** Six-bit fields can be read back from the number they make up. */
  lemma Fields(a: int, b: int, c: int, d: int)
    requires 0 <= a < 64 && 0 <= b < 64 && 0 <= c < 64 && 0 <= d < 64
    ensures var n := a * 262144 + b * 4096 + c * 64 + d;
      n / 262144 == a && n / 4096 == a * 64 + b && n / 4096 % 64 == b && n / 64 % 64 == c && n % 64 == d
  {
    var n := a * 262144 + b * 4096 + c * 64 + d;
    assert n / 64 == a * 4096 + b * 64 + c;
    assert n / 4096 == a * 64 + b;
    assert n / 262144 == a;
  }

  /** Every number below 2^24 is made up of such fields. */
  lemma Split(n: int) returns (a: int, b: int, c: int, d: int)
    requires 0 <= n < 0x1000000
    ensures 0 <= a < 64 && 0 <= b < 64 && 0 <= c < 64 && 0 <= d < 64
    ensures n == a * 262144 + b * 4096 + c * 64 + d
  {
    d := n % 64;
    c := n / 64 % 64;
    b := n / 64 / 64 % 64;
    a := n / 64 / 64 / 64;
  }

  /** Encode produces a well-formed sequence for its scalar value, and never the byte 0xFF. */
  lemma EncodeWellFormed(cp: int)
    requires IsScalar(cp)
    ensures WellFormed(Encode(cp)) && Decode(Encode(cp)) == cp
    ensures forall i :: 0 <= i < |Encode(cp)| ==> Encode(cp)[i] < '\U{00FF}'
  {
    var a, b, c, d := Split(cp);
    Fields(a, b, c, d);
    if cp <= 0x7ff {
      assert a == b == 0;
      assert cp / 64 == c;
    } else if cp <= 0xffff {
      assert a == 0;
    }
  }

  /** The encoding is the only one: a well-formed sequence is the encoding of what it decodes to. */
  lemma EncodeUnique(bs: string)
    requires WellFormed(bs)
    ensures IsScalar(Decode(bs)) && Encode(Decode(bs)) == bs
  {
    var cp := Decode(bs);
    if |bs| == 1 {
    } else if |bs| == 2 {
      Fields(0, 0, bs[0] as int - 0xc0, bs[1] as int - 0x80);
      assert cp / 64 == bs[0] as int - 0xc0;
    } else if |bs| == 3 {
      Fields(0, bs[0] as int - 0xe0, bs[1] as int - 0x80, bs[2] as int - 0x80);
    } else {
      Fields(bs[0] as int - 0xf0, bs[1] as int - 0x80, bs[2] as int - 0x80, bs[3] as int - 0x80);
    }
  }
}
