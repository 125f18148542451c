/**
 * Decimal literals (nxe_cedar_make_decimal): `-?d+.d{1,4}`, held as a 64-bit integer scaled by 10^4.
 */
module Decimal {
  import opened Common
  import opened Digits
  import Reading

  const SCALE := 10000

  /** The weight of the last of n fractional digits. */
  function Weight(n: nat): (w: nat)
    requires n <= 4
  {
    if n == 0 then 10000 else if n == 1 then 1000 else if n == 2 then 100 else if n == 3 then 10 else 1
  }

  /** The scaled number a sign, integer digits and one to four fractional digits stand for. */
  function Scaled(negative: bool, whole: DigitString, frac: DigitString): (v: int)
    requires |frac| <= 4
  {
    var magnitude := DecValue(whole) * SCALE + DecValue(frac) * Weight(|frac|);
    if negative then -magnitude else magnitude
  }

  function Spell(negative: bool, whole: DigitString, frac: DigitString): string {
    (if negative then "-" else "") + whole + "." + frac
  }

  /** The value of a decimal text, read left to right. */
  function DecimalOf(s: string): Option<int> {
    var negative := s != "" && s[0] == '-';
    var p := if negative then 1 else 0;
    var q := DigitSpan(s, p);
    if q == p || q >= |s| || s[q] != '.' then None
    else
      var e := DigitSpan(s, q + 1);
      if e != |s| || !(1 <= e - (q + 1) <= 4) then None
      else
        var v := Scaled(negative, s[p..q], s[q + 1..e]);
        if InInt64(v) then Some(v) else None
  }

  /** A spelled-out decimal is accepted exactly if its scaled value is a 64-bit integer, as that value. */
  lemma DecimalSpelled(negative: bool, whole: DigitString, frac: DigitString)
    requires 1 <= |whole| && 1 <= |frac| <= 4
    ensures DecimalOf(Spell(negative, whole, frac)) ==
      if InInt64(Scaled(negative, whole, frac)) then Some(Scaled(negative, whole, frac)) else None
  {
    hide DecValue, Weight;
    var s := Spell(negative, whole, frac);
    var p := if negative then 1 else 0;
    var q := p + |whole|;
    assert s[p..q] == whole && s[q] == '.' && s[q + 1..] == frac;
    assert !negative ==> s[0] == whole[0];
    DigitSpanIs(s, p, q);
    DigitSpanIs(s, q + 1, |s|);
    assert s[q + 1..|s|] == frac;
  }

  /** A zero behind up to three fractional digits changes nothing. */
  lemma TrailingZero(negative: bool, whole: DigitString, frac: DigitString)
    requires 1 <= |whole| && 1 <= |frac| <= 3
    ensures AllDigits(frac + "0") && DecimalOf(Spell(negative, whole, frac + "0")) == DecimalOf(Spell(negative, whole, frac))
  {
    DecValueSnoc(frac, '0');
    assert Scaled(negative, whole, frac + "0") == Scaled(negative, whole, frac);
    hide DecimalOf, Scaled, Spell;
    DecimalSpelled(negative, whole, frac);
    DecimalSpelled(negative, whole, frac + "0");
  }

  /** Only such texts are accepted. */
  lemma DecimalGrammar(s: string) returns (negative: bool, whole: DigitString, frac: DigitString)
    requires DecimalOf(s).Some?
    ensures s == Spell(negative, whole, frac) && 1 <= |whole| && 1 <= |frac| <= 4
    ensures DecimalOf(s) == Some(Scaled(negative, whole, frac))
  {
    negative := s[0] == '-';
    var p := if negative then 1 else 0;
    var q := DigitSpan(s, p);
    whole, frac := s[p..q], s[q + 1..|s|];
    assert s == s[..p] + s[p..q] + [s[q]] + s[q + 1..];
  }

  function Pad4(n: nat): (s: DigitString)
    requires n < 10000
    ensures |s| == 4
  {
    [DigitChar(n / 1000), DigitChar(n / 100 % 10), DigitChar(n / 10 % 10), DigitChar(n % 10)]
  }

  lemma Pad4Value(n: nat)
    requires n < 10000
    ensures DecValue(Pad4(n)) == n
  {
    var s := Pad4(n);
    assert s[..3][..2] == s[..2] && s[..3][..2][..1] == s[..1] && s[..1][..0] == "";
    assert DecValue(s[..0]) == 0;
    assert s[..2][..1] == s[..1];
    DecValueSnoc(s[..0], s[0]);
    DecValueSnoc(s[..1], s[1]);
    DecValueSnoc(s[..2], s[2]);
    DecValueSnoc(s[..3], s[3]);
    assert s[..0] + [s[0]] == s[..1] && s[..1] + [s[1]] == s[..2] && s[..2] + [s[2]] == s[..3] && s[..3] + [s[3]] == s;
    Digits4(n);
  }

  lemma Digits4(n: nat)
    requires n < 10000
    ensures ((n / 1000 * 10 + n / 100 % 10) * 10 + n / 10 % 10) * 10 + n % 10 == n
  {
    assert n / 100 == n / 10 / 10 && n / 1000 == n / 100 / 10;
  }

  /** The canonical text of a scaled value: four fractional digits. */
  function Show(v: int): string {
    var m: nat := if v < 0 then -v else v;
    Spell(v < 0, ShowNat(m / SCALE), Pad4(m % SCALE))
  }

  /** Reading undoes printing for every decimal value, INT64_MIN included. */
  lemma ShowReads(v: int)
    requires InInt64(v)
    ensures DecimalOf(Show(v)) == Some(v)
  {
    var m: nat := if v < 0 then -v else v;
    ScaledShown(v < 0, m);
    hide ShowNat, Pad4, DecValue, DecimalOf, Spell, Scaled;
    DecimalSpelled(v < 0, ShowNat(m / SCALE), Pad4(m % SCALE));
  }

  lemma ScaledShown(negative: bool, m: nat)
    ensures Scaled(negative, ShowNat(m / SCALE), Pad4(m % SCALE)) == if negative then 0 - m else m
  {
    hide ShowNat, Pad4, DecValue;
    Pad4Value(m % SCALE);
  }

  // ---- The source's reader ----

  /** A run of digits as an integer, unless it leaves the 64-bit range. */
  method ReadWhole(s: string, p: nat) returns (r: Option<(int, nat)>)
    requires p <= |s|
    ensures var q := DigitSpan(s, p); var v: int := DecValue(s[p..q]);
      r == if v <= INT64_MAX then Some((v, q)) else None
  {
    ghost var e := DigitSpan(s, p);
    var q, v: int := p, 0;
    assert s[p..p] == "";
    while q < |s| && IsDigit(s[q])
      invariant p <= q <= |s| && DigitSpan(s, p) == DigitSpan(s, q)
      invariant AllDigits(s[p..q]) && v == DecValue(s[p..q]) <= INT64_MAX
    {
      var d := DigitVal(s[q]);
      assert s[p..q + 1] == s[p..q] + [s[q]];
      DecValueSnoc(s[p..q], s[q]);
      GuardExact(v, d, INT64_MAX);
      if v > TruncDiv(INT64_MAX - d, 10) {
        assert DigitSpan(s, q + 1) == e;
        assert s[p..e][..q + 1 - p] == s[p..q + 1];
        DecValuePrefix(s[p..e], q + 1 - p);
        return None;
      }
      v := v * 10 + d;
      q := q + 1;
    }
    return Some((v, q));
  }

  /** At most four digits; `digits` counts them. */
  method ReadFrac(s: string, p: nat) returns (r: Option<(int, nat, nat)>)
    requires p <= |s|
    ensures r.Some? <==> DigitSpan(s, p) - p <= 4
    ensures r.Some? ==> var q := DigitSpan(s, p);
      r.value.0 == DecValue(s[p..q]) < 10000 && r.value.1 == q - p && r.value.2 == q
  {
    assert DecValue("") == 0;
    hide DecValue;
    var q, v: int, n: nat := p, 0, 0;
    assert s[p..p] == "";
    assert Reading.Pow10(4) == 10000;
    while q < |s| && IsDigit(s[q])
      invariant p <= q <= |s| && n == q - p <= 4 && DigitSpan(s, p) == DigitSpan(s, q)
      invariant AllDigits(s[p..q]) && v == DecValue(s[p..q])
      invariant v < Reading.Pow10(n)
    {
      if n >= 4 {
        return None;
      }
      assert s[p..q + 1] == s[p..q] + [s[q]];
      DecValueSnoc(s[p..q], s[q]);
      v := v * 10 + DigitVal(s[q]);
      n := n + 1;
      q := q + 1;
    }
    FourDigits(v, n);
    return Some((v, n, q));
  }

  lemma FourDigits(v: int, n: nat)
    requires n <= 4 && v < Reading.Pow10(n)
    ensures v < 10000
  {
    if n == 4 {
    } else if n == 3 {
    } else if n == 2 {
    }
  }

  method PadFrac(f: int, n: nat) returns (g: int)
    requires n <= 4
    ensures g == f * Weight(n)
  {
    g := f;
    var k := n;
    while k < 4
      invariant n <= k <= 4 && g * Weight(k) == f * Weight(n)
    {
      g, k := g * 10, k + 1;
    }
  }

  method MakeDecimal(s: string) returns (r: Option<int>)
    ensures r == DecimalOf(s)
  {
    hide DecValue, Weight, AllDigits;
    if s == "" {
      return None;
    }
    var p, negative := 0, false;
    if s[0] == '-' {
      negative := true;
      p := 1;
      if p == |s| {
        return None;
      }
    }
    if p >= |s| || !IsDigit(s[p]) {
      return None;
    }
    var whole := ReadWhole(s, p);
    if whole.None? {
      TooLarge(s);
      return None;
    }
    var q := whole.value.1;
    if q >= |s| || s[q] != '.' {
      return None;
    }
    var frac := ReadFrac(s, q + 1);
    if frac.None? || frac.value.1 == 0 || frac.value.2 != |s| {
      return None;
    }
    var f := PadFrac(frac.value.0, frac.value.1);
    assert |s[q + 1..|s|]| == frac.value.1;
    var scaled := if negative then -(whole.value.0 * SCALE) else whole.value.0 * SCALE;
    if !InInt64(scaled) {
      return None;
    }
    scaled := if negative then scaled - f else scaled + f;
    return if InInt64(scaled) then Some(scaled) else None;
  }

  /** An integer part beyond 64 bits makes the scaled value leave the range too. */
  lemma TooLarge(s: string)
    requires s != ""
    requires var p := if s[0] == '-' then 1 else 0; DecValue(s[p..DigitSpan(s, p)]) > INT64_MAX
    ensures DecimalOf(s).None?
  {
  }
}
