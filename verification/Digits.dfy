/**
 * Decimal digit strings, and the two overflow-guarded integer readers of the parser
 * (nxe_cedar_parse_long and nxe_cedar_parse_neg_long).
 */
module Digits {
  import opened Common

  predicate IsDigit(c: char) { '0' <= c <= '9' }

  function DigitVal(c: char): (d: int)
    requires IsDigit(c)
    ensures 0 <= d <= 9
  {
    c as int - '0' as int
  }

  function DigitChar(d: int): (c: char)
    requires 0 <= d <= 9
    ensures IsDigit(c) && DigitVal(c) == d
  {
    ('0' as int + d) as char
  }

  /** A hexadecimal digit, in either case. */
  function HexVal(c: char): (v: Option<nat>)
    ensures v.Some? ==> v.value < 16
  {
    if '0' <= c <= '9' then Some(c as int - '0' as int)
    else if 'a' <= c <= 'f' then Some(c as int - 'a' as int + 10)
    else if 'A' <= c <= 'F' then Some(c as int - 'A' as int + 10)
    else None
  }

  predicate AllDigits(s: string) {
    forall i :: 0 <= i < |s| ==> IsDigit(s[i])
  }

  /** The text of a NUMBER token: the lexer only ever puts digits there. */
  type DigitString = s: string | AllDigits(s) witness ""

  /** The number a digit string denotes, leading zeros included. */
  function DecValue(s: DigitString): nat {
    if s == "" then 0 else DecValue(s[..|s| - 1]) * 10 + DigitVal(s[|s| - 1])
  }

  /** The shortest decimal spelling of n. */
  function ShowNat(n: nat): (s: DigitString)
    ensures |s| > 0
    ensures DecValue(s) == n
  {
    if n < 10 then
      assert DecValue("") == 0;
      [DigitChar(n)]
    else
      var s := ShowNat(n / 10) + [DigitChar(n % 10)];
      assert s[..|s| - 1] == ShowNat(n / 10);
      s
  }

  /** Reading one more digit. */
  lemma DecValueSnoc(s: DigitString, c: char)
    requires IsDigit(c)
    ensures AllDigits(s + [c]) && DecValue(s + [c]) == DecValue(s) * 10 + DigitVal(c)
  {
    assert (s + [c])[..|s|] == s;
  }

  /** A longer digit string never denotes a smaller number. */
  lemma {:induction false} DecValuePrefix(s: DigitString, i: nat)
    requires i <= |s|
    ensures AllDigits(s[..i]) && DecValue(s[..i]) <= DecValue(s)
    decreases |s| - i
  {
    if i == |s| {
      assert s[..i] == s;
    } else {
      DecValuePrefix(s, i + 1);
      assert s[..i + 1][..i] == s[..i];
    }
  }

  /** The guard `val > (max - digit) / 10` rejects exactly the digits that leave [0, max]. */
  lemma GuardExact(val: int, digit: int, max: int)
    requires 0 <= val && 0 <= digit <= 9 <= max
    ensures val > TruncDiv(max - digit, 10) <==> val * 10 + digit > max
  {
  }

  /** A NUMBER token stands for its value, if that is a 64-bit integer. */
  function LongOf(s: DigitString): Option<int> {
    if DecValue(s) <= INT64_MAX then Some(DecValue(s)) else None
  }

  /** A NUMBER token after a minus sign stands for the negated value, if that is one. */
  function NegLongOf(s: DigitString): Option<int> {
    var v: int := DecValue(s);
    if INT64_MIN <= -v then Some(-v) else None
  }

  method ParseLong(s: DigitString) returns (r: Option<int>)
    ensures r == LongOf(s)
  {
    var val := 0;
    var i := 0;
    while i < |s|
      invariant 0 <= i <= |s|
      invariant val == DecValue(s[..i]) <= INT64_MAX
    {
      var digit := DigitVal(s[i]);
      assert s[..i + 1] == s[..i] + [s[i]];
      DecValueSnoc(s[..i], s[i]);
      GuardExact(val, digit, INT64_MAX);
      if val > TruncDiv(INT64_MAX - digit, 10) {
        DecValuePrefix(s, i + 1);
        return None;
      }
      val := val * 10 + digit;
      i := i + 1;
    }
    assert s[..i] == s;
    return Some(val);
  }

  /** Accumulates downwards, so that the text of INT64_MIN is accepted. */
  method ParseNegLong(s: DigitString) returns (r: Option<int>)
    ensures r == NegLongOf(s)
  {
    var val: int := 0;
    var i := 0;
    while i < |s|
      invariant 0 <= i <= |s|
      invariant -val == DecValue(s[..i]) && val >= INT64_MIN
    {
      var digit := DigitVal(s[i]);
      assert s[..i + 1] == s[..i] + [s[i]];
      DecValueSnoc(s[..i], s[i]);
      if val < TruncDiv(INT64_MIN + digit, 10) {
        DecValuePrefix(s, i + 1);
        return None;
      }
      val := val * 10 - digit;
      i := i + 1;
    }
    assert s[..i] == s;
    return Some(val);
  }

  // ---- Runs of digits inside a text ----

  /** The end of the run of digits that starts at p. */
  function DigitSpan(s: string, p: nat): (q: nat)
    requires p <= |s|
    ensures p <= q <= |s| && AllDigits(s[p..q]) && (q < |s| ==> !IsDigit(s[q]))
    decreases |s| - p
  {
    if p < |s| && IsDigit(s[p]) then
      var q := DigitSpan(s, p + 1);
      assert s[p..q] == [s[p]] + s[p + 1..q];
      q
    else p
  }

  /** A run of digits ends where a non-digit stands. */
  lemma {:induction false} DigitSpanIs(s: string, p: nat, q: nat)
    requires p <= q <= |s| && AllDigits(s[p..q]) && (q < |s| ==> !IsDigit(s[q]))
    ensures DigitSpan(s, p) == q
    decreases q - p
  {
    if p < q {
      assert s[p..q][0] == s[p] && s[p + 1..q] == s[p..q][1..];
      DigitSpanIs(s, p + 1, q);
    }
  }
}
