/**
 * Escape sequences of string literals and like patterns (nxe_cedar_decode_escape).
 */
module Escapes {
  import opened Common
  import opened Digits
  import Utf8

  /** The byte the pattern compiler uses as its wildcard marker. */
  const WILD: char := '\U{00FF}'

  /**
   * The hex run of `\u{...}` starting at p, `n` digits worth `cp` already read: the code point and
   * the index of the closing brace. One to six digits.
   */
  function HexRun(s: string, p: nat, cp: nat, n: nat): (r: Option<(nat, nat)>)
    requires p <= |s|
    ensures r.Some? ==> p <= r.value.1 < |s| && s[r.value.1] == '}' && n + r.value.1 - p >= 1
    ensures r.Some? ==> forall i :: p <= i < r.value.1 ==> HexVal(s[i]).Some?
    decreases |s| - p
  {
    if p == |s| then None
    else if s[p] == '}' then (if n == 0 then None else Some((cp, p)))
    else
      var v :- HexVal(s[p]);
      if n + 1 > 6 then None else HexRun(s, p + 1, cp * 16 + v, n + 1)
  }

  /**
   * What the escape whose first character after the backslash is s[p] decodes to, and the index
   * after it. `rejectXff` is set by the pattern compiler, which reserves 0xFF.
   */
  function DecodeEscape(s: string, p: nat, rejectXff: bool): (r: Option<(string, nat)>)
    requires p <= |s|
    ensures r.Some? ==> p < r.value.1 <= |s| && 1 <= |r.value.0| <= r.value.1 - p
  {
    if p == |s| then None
    else if s[p] == '"' then Some(("\"", p + 1))
    else if s[p] == '\\' then Some(("\\", p + 1))
    else if s[p] == 'n' then Some(("\n", p + 1))
    else if s[p] == 'r' then Some(("\r", p + 1))
    else if s[p] == 't' then Some(("\t", p + 1))
    else if s[p] == '0' then Some(("\0", p + 1))
    else if s[p] == 'x' then
      if p + 2 >= |s| then None
      else
        var h1 :- HexVal(s[p + 1]);
        var h2 :- HexVal(s[p + 2]);
        var byte := Utf8.Byte(h1 * 16 + h2);
        if rejectXff && byte == WILD then None else Some(([byte], p + 3))
    else if s[p] == 'u' then
      if p + 1 >= |s| || s[p + 1] != '{' then None
      else
        var (cp, q) :- HexRun(s, p + 2, 0, 0);
        if Utf8.IsScalar(cp) then Some((Utf8.Encode(cp), q + 1)) else None
    else None
  }

  /** The characters that can follow a backslash; a single quote is not among them, so `\'` is rejected. */
  lemma EscapeLetters(c: char, rejectXff: bool)
    ensures (exists rest: string :: DecodeEscape([c] + rest, 0, rejectXff).Some?) <==> c in "\"\\nrt0xu"
    ensures forall rest: string :: DecodeEscape("'" + rest, 0, rejectXff).None?
  {
    if c == 'x' {
      assert DecodeEscape([c] + "41", 0, rejectXff).Some?;
    } else if c == 'u' {
      var s := [c] + "{0}";
      assert HexRun(s, 3, 0, 1) == Some((0, 3));
      assert HexRun(s, 2, 0, 0) == Some((0, 3));
      assert DecodeEscape(s, 0, rejectXff).Some?;
    } else {
      assert DecodeEscape([c] + "", 0, rejectXff).Some? <==> c in "\"\\nrt0";
    }
  }

  /** With 0xFF rejected, no escape writes it. */
  lemma NoWildFromEscape(s: string, p: nat)
    requires p <= |s| && DecodeEscape(s, p, true).Some?
    ensures WILD !in DecodeEscape(s, p, true).value.0
  {
    if s[p] == 'u' {
      var (cp, q) := HexRun(s, p + 2, 0, 0).value;
      Utf8.EncodeWellFormed(cp);
    }
  }

  /** Inside an accepted escape there is no quote and no backslash after its first character. */
  lemma EscapeBodyPlain(s: string, p: nat, rejectXff: bool)
    requires p <= |s| && DecodeEscape(s, p, rejectXff).Some?
    ensures forall i :: p < i < DecodeEscape(s, p, rejectXff).value.1 ==> s[i] != '"' && s[i] != '\\'
  {
  }

  /** Escapes are read from the text alone: what follows them does not matter. */
  lemma {:induction false} HexRunExtends(s: string, t: string, p: nat, cp: nat, n: nat)
    requires p <= |s| && HexRun(s, p, cp, n).Some?
    ensures HexRun(s + t, p, cp, n) == HexRun(s, p, cp, n)
    decreases |s| - p
  {
    if s[p] != '}' {
      HexRunExtends(s, t, p + 1, cp * 16 + HexVal(s[p]).value, n + 1);
    }
  }

  /** Lays the bytes of nxe_cedar_utf8_encode down at `d`. */
  method Write(bytes: string, dst: array<char>, d: nat)
    requires d + |bytes| <= dst.Length
    modifies dst
    ensures dst[..d] == old(dst[..d]) && dst[d..d + |bytes|] == bytes
  {
    var k := 0;
    while k < |bytes|
      invariant 0 <= k <= |bytes|
      invariant dst[..d] == old(dst[..d])
      invariant dst[d..d + k] == bytes[..k]
    {
      dst[d + k] := bytes[k];
      k := k + 1;
    }
    assert bytes[..k] == bytes;
  }

  /** The `u{...}` case of the decoder, up to but not including the write. */
  method ReadBraced(s: string, p: nat) returns (r: Option<(nat, nat)>)
    requires p < |s| && s[p] == 'u'
    ensures r == if p + 1 < |s| && s[p + 1] == '{' then HexRun(s, p + 2, 0, 0) else None
  {
    if p + 1 >= |s| || s[p + 1] != '{' {
      return None;
    }
    var q, cp, nDigits := p + 2, 0, 0;
    while q < |s| && s[q] != '}'
      invariant p + 2 <= q <= |s| && nDigits == q - (p + 2)
      invariant HexRun(s, q, cp, nDigits) == HexRun(s, p + 2, 0, 0)
    {
      var dig := HexVal(s[q]);
      if dig.None? {
        return None;
      }
      cp := cp * 16 + dig.value;
      nDigits := nDigits + 1;
      if nDigits > 6 {
        return None;
      }
      q := q + 1;
    }
    if q >= |s| || nDigits == 0 {
      return None;
    }
    return Some((cp, q));
  }

  /**
   * The source's in-place decoder: writes into `dst` at `d` and moves both positions. It checks no
   * bound on `dst`; a buffer as long as the text, filled no further than the text is read, is enough.
   */
  method Decode(s: string, p: nat, dst: array<char>, d: nat, rejectXff: bool)
    returns (r: Option<(nat, nat)>)
    requires d < p <= |s| <= dst.Length
    modifies dst
    ensures dst[..d] == old(dst[..d])
    ensures r.Some? == DecodeEscape(s, p, rejectXff).Some?
    ensures r.Some? ==>
      var (bytes, next) := DecodeEscape(s, p, rejectXff).value;
      r.value == (next, d + |bytes|) && r.value.1 < next && dst[d..r.value.1] == bytes
  {
    if p >= |s| {
      return None;
    }
    var bytes, q := "", p + 1;
    match s[p] {
      case '"' => bytes := "\"";
      case '\\' => bytes := "\\";
      case 'n' => bytes := "\n";
      case 'r' => bytes := "\r";
      case 't' => bytes := "\t";
      case '0' => bytes := "\0";
      case 'x' =>
        if p + 2 >= |s| {
          return None;
        }
        var h1, h2 := HexVal(s[p + 1]), HexVal(s[p + 2]);
        if h1.None? || h2.None? {
          return None;
        }
        var byte := Utf8.Byte(h1.value * 16 + h2.value);
        if rejectXff && byte == WILD {
          return None;
        }
        bytes, q := [byte], p + 3;
      case 'u' =>
        var braced := ReadBraced(s, p);
        if braced.None? || braced.value.0 > 0x10ffff || 0xd800 <= braced.value.0 <= 0xdfff {
          return None;
        }
        bytes, q := Utf8.Encode(braced.value.0), braced.value.1 + 1;
      case _ =>
        return None;
    }
    assert DecodeEscape(s, p, rejectXff) == Some((bytes, q));
    Write(bytes, dst, d);
    return Some((q, d + |bytes|));
  }
}
