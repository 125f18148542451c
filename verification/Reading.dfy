/** Fixed-width fields of a text: what nxe_cedar_read_uint and the single-character checks accept. */
module Reading {
  import opened Common
  import opened Digits

  function Pow10(n: nat): (p: nat)
    ensures p > 0
  {
    if n == 0 then 1 else 10 * Pow10(n - 1)
  }

  /** v in exactly n digits. */
  function Pad(v: nat, n: nat): (s: DigitString)
    ensures |s| == n
  {
    if n == 0 then "" else Pad(v / 10, n - 1) + [DigitChar(v % 10)]
  }

  lemma {:induction false} PadValue(v: nat, n: nat)
    requires v < Pow10(n)
    ensures DecValue(Pad(v, n)) == v
  {
    if n > 0 {
      PadValue(v / 10, n - 1);
      DecValueSnoc(Pad(v / 10, n - 1), DigitChar(v % 10));
    }
  }

  lemma {:induction false} PadOfValue(s: DigitString)
    ensures DecValue(s) < Pow10(|s|) && Pad(DecValue(s), |s|) == s
    decreases |s|
  {
    if s != "" {
      var s', c := s[..|s| - 1], s[|s| - 1];
      PadOfValue(s');
      assert s == s' + [c];
      hide Pow10, Pad, DecValue, DigitVal, DigitChar;
      DecValueSnoc(s', c);
      PadStep(DecValue(s'), DigitVal(c), |s'|);
      CharOf(c);
    } else {
      assert DecValue("") == 0;
    }
  }

  lemma CharOf(c: char)
    requires IsDigit(c)
    ensures DigitChar(DigitVal(c)) == c
  {
  }

  lemma PadStep(v: nat, d: nat, n: nat)
    requires d <= 9
    ensures Pad(v * 10 + d, n + 1) == Pad(v, n) + [DigitChar(d)]
    ensures v < Pow10(n) ==> v * 10 + d < Pow10(n + 1)
  {
    assert (v * 10 + d) / 10 == v && (v * 10 + d) % 10 == d;
    assert Pow10(n + 1) == 10 * Pow10(n);
  }

  /** Exactly n digits, and what follows them. */
  function ReadUint(s: string, n: nat): Option<(nat, string)> {
    if n <= |s| && AllDigits(s[..n]) then Some((DecValue(s[..n]), s[n..])) else None
  }

  function Eat(s: string, c: char): Option<string> {
    if s != "" && s[0] == c then Some(s[1..]) else None
  }

  /** The first c at or after p (memchr), or the length if there is none. */
  function Find(s: string, c: char, p: nat): (q: nat)
    requires p <= |s|
    ensures p <= q <= |s| && (q < |s| ==> s[q] == c) && c !in s[p..q]
    decreases |s| - p
  {
    if p == |s| || s[p] == c then p
    else
      var q := Find(s, c, p + 1);
      assert s[p..q] == [s[p]] + s[p + 1..q];
      q
  }

  lemma {:induction false} FindIs(s: string, c: char, p: nat, q: nat)
    requires p <= q <= |s| && c !in s[p..q] && (q < |s| ==> s[q] == c)
    ensures Find(s, c, p) == q
    decreases q - p
  {
    if p < q {
      assert s[p..q][0] == s[p] && s[p + 1..q] == s[p..q][1..];
      FindIs(s, c, p + 1, q);
    }
  }

  /** Splitting a text at the first c. */
  lemma FindSplit(a: string, c: char, b: string)
    requires c !in a && (b == "" || b[0] == c)
    ensures Find(a + b, c, 0) == |a| && (a + b)[..|a|] == a && (a + b)[|a|..] == b
  {
    assert (a + b)[0..|a|] == a;
    FindIs(a + b, c, 0, |a|);
  }

  lemma ReadPad(v: nat, n: nat, rest: string)
    requires v < Pow10(n)
    ensures ReadUint(Pad(v, n) + rest, n) == Some((v, rest))
  {
    PadValue(v, n);
    assert (Pad(v, n) + rest)[..n] == Pad(v, n);
  }

  lemma ReadIsPad(s: string, n: nat)
    requires ReadUint(s, n).Some?
    ensures ReadUint(s, n).value.0 < Pow10(n) && s == Pad(ReadUint(s, n).value.0, n) + ReadUint(s, n).value.1
  {
    PadOfValue(s[..n]);
  }

  lemma EatIs(s: string, c: char)
    requires Eat(s, c).Some?
    ensures s == [c] + Eat(s, c).value
  {
  }

  lemma EatAt(s: string, p: nat, c: char)
    requires p <= |s|
    ensures Eat(s[p..], c) == if p < |s| && s[p] == c then Some(s[p + 1..]) else None
  {
  }

  method ReadUintAt(s: string, p: nat, n: nat) returns (r: Option<(nat, nat)>)
    requires p <= |s|
    ensures r.Some? <==> ReadUint(s[p..], n).Some?
    ensures r.Some? ==> r.value.1 == p + n <= |s| && ReadUint(s[p..], n) == Some((r.value.0, s[p + n..]))
  {
    var v := 0;
    var i := 0;
    while i < n
      invariant 0 <= i <= n && p + i <= |s|
      invariant AllDigits(s[p..p + i]) && v == DecValue(s[p..p + i])
    {
      if p + i >= |s| || !IsDigit(s[p + i]) {
        if n <= |s[p..]| {
          assert s[p..][..n][i] == s[p + i];
        }
        return None;
      }
      assert s[p..p + i + 1] == s[p..p + i] + [s[p + i]];
      DecValueSnoc(s[p..p + i], s[p + i]);
      v := v * 10 + DigitVal(s[p + i]);
      i := i + 1;
    }
    assert s[p..][..n] == s[p..p + n];
    return Some((v, p + n));
  }
}
