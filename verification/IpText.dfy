/**
 * IP literals (nxe_cedar_make_ip, _parse_ipv4, _parse_ipv6, _parse_bounded_dec). What is accepted is
 * stated against the spellings of section 2.2 of RFC 4291 and of dotted quads.
 */
module IpText {
  import opened Common
  import opened Digits
  import opened Reading

  /** n zero bytes. */
  function Zeros(n: nat): (z: seq<Byte>)
    ensures |z| == n
  {
    seq(n, _ => 0)
  }

  type Address = a: seq<Byte> | |a| == 16 witness Zeros(16)

  /** A parsed address or block: 16 bytes (IPv4 uses the first four), prefix length and family. */
  datatype Block = Block(addr: Address, prefix: nat, v6: bool)

  type Ip = b: Block | b.prefix <= (if b.v6 then 128 else 32) witness Block(Zeros(16), 0, false)

  // ---- Bounded decimals ----

  /** A decimal of at most `max` without leading zeros, and what follows it. */
  function ReadBounded(s: string, max: nat): (r: Option<(nat, string)>)
    ensures r.Some? ==> r.value.0 <= max
  {
    var q := DigitSpan(s, 0);
    if q == 0 || DecValue(s[..q]) > max || (q > 1 && s[0] == '0') then None
    else Some((DecValue(s[..q]), s[q..]))
  }

  predicate StartsWithDigit(s: string) {
    s != "" && IsDigit(s[0])
  }

  lemma {:induction false} ShowNatNoZero(n: nat)
    ensures |ShowNat(n)| > 1 ==> ShowNat(n)[0] != '0'
    ensures n > 0 ==> ShowNat(n)[0] != '0'
    decreases n
  {
    if n >= 10 {
      ShowNatNoZero(n / 10);
    }
  }

  lemma ShowNatLength(n: nat)
    ensures n < 100 ==> |ShowNat(n)| <= 2
    ensures n < 1000 ==> |ShowNat(n)| <= 3
  {
    if n >= 100 {
      assert n < 1000 ==> n / 10 / 10 < 10;
    }
  }

  lemma ReadShown(n: nat, max: nat, rest: string)
    requires !StartsWithDigit(rest)
    ensures ReadBounded(ShowNat(n) + rest, max) == if n <= max then Some((n, rest)) else None
  {
    var s, q := ShowNat(n) + rest, |ShowNat(n)|;
    assert s[0..q] == ShowNat(n) && s[q..] == rest;
    DigitSpanIs(s, 0, q);
    ShowNatNoZero(n);
  }

  /** A digit string without leading zero is the shortest spelling of its value. */
  lemma {:induction false} ShortestSpelling(s: DigitString)
    requires s != "" && (|s| > 1 ==> s[0] != '0')
    ensures ShowNat(DecValue(s)) == s
    ensures |s| > 1 ==> DecValue(s) >= 10
    decreases |s|
  {
    if |s| == 1 {
      OneDigit(s);
    } else {
      hide ShowNat, DecValue, DigitVal, DigitChar;
      var s', c := s[..|s| - 1], s[|s| - 1];
      assert s == s' + [c];
      DecValueSnoc(s', c);
      ShortestSpelling(s');
      if |s'| == 1 {
        OneDigit(s');
      }
      ShowNatSnoc(DecValue(s'), DigitVal(c));
      CharOfVal(c);
    }
  }

  lemma OneDigit(s: DigitString)
    requires |s| == 1
    ensures DecValue(s) == DigitVal(s[0]) && ShowNat(DecValue(s)) == s
    ensures s[0] != '0' ==> DecValue(s) > 0
  {
    assert s[..0] == "" && DecValue("") == 0;
  }

  lemma CharOfVal(c: char)
    requires IsDigit(c)
    ensures DigitChar(DigitVal(c)) == c
  {
  }

  lemma ShowNatSnoc(q: nat, d: nat)
    requires q > 0 && d < 10
    ensures ShowNat(q * 10 + d) == ShowNat(q) + [DigitChar(d)]
  {
    assert (q * 10 + d) / 10 == q && (q * 10 + d) % 10 == d;
  }

  lemma ReadIsShown(s: string, max: nat)
    requires ReadBounded(s, max).Some?
    ensures var (n, rest) := ReadBounded(s, max).value;
      n <= max && s == ShowNat(n) + rest && !StartsWithDigit(rest)
  {
    var q := DigitSpan(s, 0);
    assert s[0..q] == s[..q];
    ShortestSpelling(s[..q]);
  }

  // ---- Prefix lengths ----

  /** An optional `/n` up to the end. */
  function ReadPrefix(s: string, max: nat): (r: Option<nat>)
    ensures r.Some? ==> r.value <= max
  {
    if s == "" then Some(max)
    else if s[0] != '/' then None
    else
      var (n, rest) :- ReadBounded(s[1..], max);
      if rest == "" then Some(n) else None
  }

  function ShowPrefix(prefix: Option<nat>): string {
    match prefix
    case None => ""
    case Some(n) => "/" + ShowNat(n)
  }

  lemma PrefixShown(prefix: Option<nat>, max: nat)
    ensures ReadPrefix(ShowPrefix(prefix), max) ==
      match prefix case None => Some(max) case Some(n) => if n <= max then Some(n) else None
  {
    if prefix.Some? {
      assert ShowPrefix(prefix)[1..] == ShowNat(prefix.value) + "";
      ReadShown(prefix.value, max, "");
    }
  }

  lemma PrefixIsShown(s: string, max: nat) returns (prefix: Option<nat>)
    requires ReadPrefix(s, max).Some?
    ensures s == ShowPrefix(prefix) && (prefix.Some? ==> prefix.value <= max)
  {
    if s == "" {
      prefix := None;
    } else {
      ReadIsShown(s[1..], max);
      prefix := ReadPrefix(s, max);
      assert s == "/" + s[1..];
    }
  }

  /** One more digit: the guard rejects it exactly when the number read so far, and so the whole run, is too large. */
  lemma OneMoreDec(t: string, q: nat, k: nat, max: nat)
    requires k < q <= |t| && max >= 9 && AllDigits(t[..q]) && AllDigits(t[..k]) && DecValue(t[..k]) <= max
    ensures IsDigit(t[k]) && AllDigits(t[..k + 1]) && DecValue(t[..k + 1]) == DecValue(t[..k]) * 10 + DigitVal(t[k])
    ensures DecValue(t[..k]) > TruncDiv(max - DigitVal(t[k]), 10) <==> DecValue(t[..k + 1]) > max
    ensures DecValue(t[..k + 1]) <= DecValue(t[..q])
  {
    hide DecValue, TruncDiv, DigitVal;
    assert t[..q][k] == t[k] && t[..k + 1] == t[..k] + [t[k]] && t[..q][..k + 1] == t[..k + 1];
    DecValueSnoc(t[..k], t[k]);
    DecValuePrefix(t[..q], k + 1);
    GuardExact(DecValue(t[..k]), DigitVal(t[k]), max);
  }

  /** Reads with a moving pointer and a guard against overflow, as nxe_cedar_parse_bounded_dec does. */
  method ParseBounded(s: string, start: nat, max: nat) returns (r: Option<(nat, nat)>)
    requires start <= |s| && max >= 9
    ensures r.Some? <==> ReadBounded(s[start..], max).Some?
    ensures r.Some? ==> start < r.value.1 <= |s| && ReadBounded(s[start..], max) == Some((r.value.0, s[r.value.1..]))
  {
    assert DecValue("") == 0;
    hide DecValue, TruncDiv, DigitVal;
    ghost var t := s[start..];
    var p: nat, val := start, 0;
    ghost var q := DigitSpan(t, 0);
    assert t[0..q] == t[..q] && AllDigits(t[..q]) && forall k :: 0 <= k < q ==> IsDigit(t[..q][k]) && t[..q][k] == s[start + k];
    if p >= |s| || !IsDigit(s[p]) {
      return None;
    }
    assert q > 0;
    assert t[..0] == "";
    while p < |s| && IsDigit(s[p])
      invariant start <= p <= start + q <= |s|
      invariant AllDigits(t[..p - start]) && val == DecValue(t[..p - start]) <= max
    {
      var digit := DigitVal(s[p]);
      assert t[p - start] == s[p];
      OneMoreDec(t, q, p - start, max);
      if val > TruncDiv(max - digit, 10) {
        return None;
      }
      val := val * 10 + digit;
      p := p + 1;
    }
    assert p - start == q;
    if p - start > 1 && s[start] == '0' {
      return None;
    }
    assert s[p..] == t[q..];
    return Some((val, p));
  }

  method ParsePrefix(s: string, p: nat, max: nat) returns (r: Option<nat>)
    requires p <= |s| && max >= 9
    ensures r == ReadPrefix(s[p..], max)
  {
    if p < |s| && s[p] == '/' {
      var q := ParseBounded(s, p + 1, max);
      if q.None? || q.value.1 != |s| {
        return None;
      }
      return Some(q.value.0);
    }
    return if p == |s| then Some(max) else None;
  }

  // ---- IPv4 ----

  /** The octets of a dotted quad after those already read, and what follows. */
  function Octets(s: string, before: seq<nat>): (r: Option<(seq<nat>, string)>)
    requires |before| < 4
    ensures r.Some? ==> |r.value.0| == 4 && before <= r.value.0
    decreases 4 - |before|
  {
    var (a, s1) :- ReadBounded(s, 255);
    if |before| == 3 then Some((before + [a], s1))
    else
      var s2 :- Eat(s1, '.');
      Octets(s2, before + [a])
  }

  function ByteOf(n: nat): Byte {
    n % 256
  }

  function BytesOf(o: seq<nat>): (b: seq<Byte>)
    ensures |b| == |o|
  {
    seq(|o|, i requires 0 <= i < |o| => ByteOf(o[i]))
  }

  function Ipv4Of(s: string): Option<Ip> {
    var (o, rest) :- Octets(s, []);
    var prefix :- ReadPrefix(rest, 32);
    Some(Block(BytesOf(o) + Zeros(12), prefix, false))
  }

  function ShowOctets(o: seq<nat>, rest: string): string
    requires o != []
  {
    ShowNat(o[0]) + if |o| == 1 then rest else "." + ShowOctets(o[1..], rest)
  }

  predicate AreOctets(o: seq<nat>) {
    forall i :: 0 <= i < |o| ==> o[i] <= 255
  }

  lemma {:induction false} OctetsShown(o: seq<nat>, before: seq<nat>, rest: string)
    requires o != [] && |before| + |o| == 4 && AreOctets(o) && !StartsWithDigit(rest)
    ensures Octets(ShowOctets(o, rest), before) == Some((before + o, rest))
    decreases |o|
  {
    hide ReadBounded, ShowNat, ReadPrefix;
    if |o| == 1 {
      ReadShown(o[0], 255, rest);
      assert o == [o[0]];
    } else {
      var t := ShowOctets(o[1..], rest);
      ReadShown(o[0], 255, "." + t);
      assert ("." + t)[1..] == t;
      OctetsShown(o[1..], before + [o[0]], rest);
      assert before + [o[0]] + o[1..] == before + o;
    }
  }

  lemma {:induction false} OctetsAreShown(s: string, before: seq<nat>) returns (o: seq<nat>)
    requires |before| < 4 && Octets(s, before).Some?
    ensures o != [] && AreOctets(o) && before + o == Octets(s, before).value.0
    ensures s == ShowOctets(o, Octets(s, before).value.1)
    decreases 4 - |before|
  {
    hide ReadBounded, ShowNat, ReadPrefix;
    ReadIsShown(s, 255);
    var (a, s1) := ReadBounded(s, 255).value;
    if |before| == 3 {
      o := [a];
    } else {
      EatIs(s1, '.');
      var more := OctetsAreShown(Eat(s1, '.').value, before + [a]);
      o := [a] + more;
      assert before + [a] + more == before + o && o[1..] == more;
    }
  }

  function ShowV4(o: seq<nat>, prefix: Option<nat>): string
    requires o != []
  {
    ShowOctets(o, ShowPrefix(prefix))
  }

  /** Every dotted quad with an optional prefix length up to 32 is read as itself. */
  lemma V4Shown(o: seq<nat>, prefix: Option<nat>)
    requires |o| == 4 && AreOctets(o) && (prefix.Some? ==> prefix.value <= 32)
    ensures Ipv4Of(ShowV4(o, prefix)) ==
      Some(Block(BytesOf(o) + Zeros(12), if prefix.Some? then prefix.value else 32, false))
  {
    hide Octets, ShowOctets, ReadPrefix, BytesOf, ShowNat;
    OctetsShown(o, [], ShowPrefix(prefix));
    assert [] + o == o;
    PrefixShown(prefix, 32);
  }

  /** Nothing else is. */
  lemma V4Only(s: string) returns (o: seq<nat>, prefix: Option<nat>)
    requires Ipv4Of(s).Some?
    ensures |o| == 4 && AreOctets(o) && (prefix.Some? ==> prefix.value <= 32)
    ensures s == ShowV4(o, prefix)
  {
    hide ShowOctets, ReadPrefix, BytesOf, ShowPrefix;
    o := OctetsAreShown(s, []);
    prefix := PrefixIsShown(Octets(s, []).value.1, 32);
  }

  /** nxe_cedar_parse_ipv4, writing into an address that has been zeroed. */
  method ParseIpv4(s: string, addr: array<Byte>) returns (r: Option<nat>)
    requires addr.Length == 16 && addr[..] == Zeros(16)
    modifies addr
    ensures r.Some? <==> Ipv4Of(s).Some?
    ensures r.Some? ==> Ipv4Of(s) == Some(Block(addr[..], r.value, false))
  {
    hide ReadBounded, ReadPrefix, Octets;
    var p: nat, i: nat := 0, 0;
    ghost var done: seq<nat> := [];
    assert s[0..] == s;
    while i < 4
      invariant 0 <= i == |done| <= 4 && p <= |s|
      invariant i < 4 ==> Octets(s[p..], done) == Octets(s, [])
      invariant i == 4 ==> Octets(s, []) == Some((done, s[p..]))
      invariant addr[..] == BytesOf(done) + Zeros(16 - i)
    {
      OctetsStep(s[p..], done);
      var octet := ParseBounded(s, p, 255);
      if octet.None? {
        return None;
      }
      ghost var now := addr[..];
      addr[i] := ByteOf(octet.value.0);
      assert addr[..] == now[i := ByteOf(octet.value.0)];
      p := octet.value.1;
      done := done + [octet.value.0];
      if i < 3 {
        EatAt(s, p, '.');
        if p >= |s| || s[p] != '.' {
          return None;
        }
        p := p + 1;
      }
      i := i + 1;
    }
    r := ParsePrefix(s, p, 32);
  }

  lemma OctetsStep(s: string, before: seq<nat>)
    requires |before| < 4
    ensures Octets(s, before) ==
      if ReadBounded(s, 255).None? then None
      else
        var (a, s1) := ReadBounded(s, 255).value;
        if |before| == 3 then Some((before + [a], s1))
        else if Eat(s1, '.').None? then None
        else Octets(Eat(s1, '.').value, before + [a])
  {
  }
}
