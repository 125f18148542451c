/**
 * IPv6 literals (nxe_cedar_parse_ipv6) and nxe_cedar_make_ip. The texts that are read are compared
 * with the spellings of section 2.2 of RFC 4291: eight groups, or fewer around one `::`.
 */
module Ipv6 {
  import opened Common
  import opened Digits
  import opened IpText
  import opened Reading

  /** The value of `gap` that stands for "no `::` seen". */
  const NO_GAP: nat := 8

  // ---- Groups of hexadecimal digits ----

  predicate AllHex(s: string) {
    forall i :: 0 <= i < |s| ==> HexVal(s[i]).Some?
  }

  /** A spelling of one 16-bit group: one to four hexadecimal digits, in either case. */
  type Group = g: string | 1 <= |g| <= 4 && AllHex(g) witness "0"

  function HexNumber(s: string): nat
    requires AllHex(s)
  {
    if s == "" then 0 else HexNumber(s[..|s| - 1]) * 16 + HexVal(s[|s| - 1]).value
  }

  lemma HexNumberSnoc(s: string, c: char)
    requires AllHex(s) && HexVal(c).Some?
    ensures AllHex(s + [c]) && HexNumber(s + [c]) == HexNumber(s) * 16 + HexVal(c).value
  {
    assert (s + [c])[..|s|] == s;
  }

  /** The group before the next colon, and what follows it. */
  function ReadGroup(s: string): (r: Option<(Group, string)>)
    ensures r.Some? ==> s == r.value.0 + r.value.1 && (r.value.1 == "" || r.value.1[0] == ':')
  {
    var q := Find(s, ':', 0);
    if 1 <= q <= 4 && AllHex(s[..q]) then Some((s[..q], s[q..])) else None
  }

  predicate EndsGroup(k: string) {
    k == "" || k[0] == ':'
  }

  lemma ReadGroupAt(g: Group, k: string)
    requires EndsGroup(k)
    ensures ReadGroup(g + k) == Some((g, k))
  {
    FindSplit(g, ':', k);
  }

  // ---- The reader ----

  /** What follows a group: the end, one colon and more groups, or the `::` with or without more. */
  function AfterGroup(t: string, groups: seq<Group>, gap: nat): Option<(seq<Group>, nat)>
    requires EndsGroup(t)
    decreases |t|, 0
  {
    if t == "" then Some((groups, gap))
    else if |t| >= 2 && t[1] == ':' then
      if gap != NO_GAP then None else ReadGroups(t[2..], groups, |groups|)
    else if |t| == 1 then None
    else ReadGroups(t[1..], groups, gap)
  }

  function ReadGroups(t: string, groups: seq<Group>, gap: nat): Option<(seq<Group>, nat)>
    decreases |t|, 1
  {
    if t == "" then Some((groups, gap))
    else if |groups| >= 8 then None
    else
      var (g, rest) :- ReadGroup(t);
      AfterGroup(rest, groups + [g], gap)
  }

  lemma ReadStep(t: string, before: seq<Group>, gap: nat)
    requires t != ""
    ensures ReadGroups(t, before, gap) ==
      if |before| >= 8 || ReadGroup(t).None? then None
      else AfterGroup(ReadGroup(t).value.1, before + [ReadGroup(t).value.0], gap)
  {
  }

  lemma ReadEnd(t: string, before: seq<Group>, gap: nat)
    requires t == ""
    ensures ReadGroups(t, before, gap) == Some((before, gap))
  {
  }

  lemma AfterStep(t: string, groups: seq<Group>, gap: nat)
    requires EndsGroup(t)
    ensures AfterGroup(t, groups, gap) ==
      if t == "" then ReadGroups(t, groups, gap)
      else if |t| >= 2 && t[1] == ':' then if gap != NO_GAP then None else ReadGroups(t[2..], groups, |groups|)
      else if |t| == 1 then None
      else ReadGroups(t[1..], groups, gap)
  {
  }

  /** The groups of an address and the position of its gap; a leading `::` is the gap 0. */
  function Scan(t: string): Option<(seq<Group>, nat)> {
    if |t| >= 2 && t[0] == ':' && t[1] == ':' then ReadGroups(t[2..], [], 0) else ReadGroups(t, [], NO_GAP)
  }

  function GroupBytes(g: Group): (b: seq<Byte>)
    ensures |b| == 2
  {
    [ByteOf(HexNumber(g) / 256), ByteOf(HexNumber(g))]
  }

  function Bytes(groups: seq<Group>): (b: seq<Byte>)
    ensures |b| == 2 * |groups|
  {
    if groups == [] then [] else Bytes(groups[..|groups| - 1]) + GroupBytes(groups[|groups| - 1])
  }

  /** The address of scanned groups: the gap is filled with zeros and needs at least one group. */
  function Expand(groups: seq<Group>, gap: nat): Option<Address> {
    if gap == NO_GAP then
      if |groups| == 8 then Some(Bytes(groups)) else None
    else if |groups| < gap || |groups| >= 8 then None
    else Some(Bytes(groups[..gap]) + Zeros(16 - 2 * |groups|) + Bytes(groups[gap..]))
  }

  function Ipv6Of(s: string): Option<Ip> {
    var q := Find(s, '/', 0);
    var (groups, gap) :- Scan(s[..q]);
    var addr :- Expand(groups, gap);
    var prefix :- ReadPrefix(s[q..], 128);
    Some(Block(addr, prefix, true))
  }

  /** nxe_cedar_make_ip: a colon anywhere selects IPv6. */
  function IpOf(s: string): Option<Ip> {
    if s == "" || |s| > 43 then None
    else if ':' in s then Ipv6Of(s)
    else Ipv4Of(s)
  }

  // ---- The spellings ----

  /** Groups joined by colons, then k. */
  function Join(groups: seq<Group>, k: string): string {
    if groups == [] then k
    else if |groups| == 1 then groups[0] + k
    else groups[0] + (":" + Join(groups[1..], k))
  }

  /**
   * How an IPv6 address is written: eight groups, or fewer than eight with one `::` anywhere among
   * them. `Trailing` is not an address of RFC 4291, but the source reads it (see EightAndGap).
   */
  datatype Form = Full(groups: seq<Group>) | Gap(left: seq<Group>, right: seq<Group>) | Trailing(groups: seq<Group>)

  predicate IsForm(f: Form) {
    match f
    case Full(groups) => |groups| == 8
    case Gap(left, right) => |left| + |right| < 8
    case Trailing(groups) => |groups| == 8
  }

  function ShowForm(f: Form): string {
    match f
    case Full(groups) => Join(groups, "")
    case Gap(left, right) => Join(left, "::" + Join(right, ""))
    case Trailing(groups) => Join(groups, "::")
  }

  /** The address a form stands for. */
  function FormBytes(f: Form): Address
    requires IsForm(f)
  {
    match f
    case Full(groups) => Bytes(groups)
    case Gap(left, right) => Bytes(left) + Zeros(16 - 2 * |left| - 2 * |right|) + Bytes(right)
    case Trailing(groups) => Bytes(groups)
  }

  // ---- Every spelling is read ----

  lemma {:induction false} ReadJoin(groups: seq<Group>, k: string, before: seq<Group>, gap: nat)
    requires groups != [] && |before| + |groups| <= 8 && EndsGroup(k)
    ensures ReadGroups(Join(groups, k), before, gap) == AfterGroup(k, before + groups, gap)
    decreases |groups|
  {
    hide ReadGroup, AllHex, Find;
    var g := groups[0];
    if |groups| == 1 {
      ReadGroupAt(g, k);
      assert groups == [g];
    } else {
      var t := Join(groups[1..], k);
      ReadGroupAt(g, ":" + t);
      ReadJoin(groups[1..], k, before + [g], gap);
      assert before + [g] + groups[1..] == before + groups;
      assert (":" + t)[1..] == t;
      JoinStart(groups[1..], k);
    }
  }

  lemma JoinStart(groups: seq<Group>, k: string)
    requires groups != []
    ensures Join(groups, k) != "" && Join(groups, k)[0] != ':'
  {
    assert groups[0][0] != ':';
  }

  lemma {:induction false} NoSlash(groups: seq<Group>, k: string)
    requires '/' !in k
    ensures '/' !in Join(groups, k)
    decreases |groups|
  {
    if |groups| > 1 {
      NoSlash(groups[1..], k);
    }
  }

  lemma ScanForm(f: Form)
    requires IsForm(f)
    ensures Scan(ShowForm(f)) == match f
                                 case Full(groups) => Some((groups, NO_GAP))
                                 case Gap(left, right) => Some((left + right, |left|))
                                 case Trailing(groups) => Some((groups, NO_GAP))
  {
    match f {
      case Full(groups) =>
        ReadJoin(groups, "", [], NO_GAP);
        assert [] + groups == groups;
        JoinStart(groups, "");
      case Gap(left, right) =>
        var t := Join(right, "");
        assert ("::" + t)[2..] == t;
        if right != [] {
          ReadJoin(right, "", left, |left|);
        } else {
          assert left + right == left;
        }
        if left != [] {
          ReadJoin(left, "::" + t, [], NO_GAP);
          assert [] + left == left;
          JoinStart(left, "::" + t);
        } else {
          assert left + right == right;
        }
      case Trailing(groups) =>
        ReadJoin(groups, "::", [], NO_GAP);
        assert [] + groups == groups;
        JoinStart(groups, "::");
    }
  }

  lemma ShowFormPlain(f: Form)
    ensures '/' !in ShowForm(f)
  {
    match f
    case Full(groups) => NoSlash(groups, "");
    case Gap(left, right) => NoSlash(right, ""); NoSlash(left, "::" + Join(right, ""));
    case Trailing(groups) => NoSlash(groups, "::");
  }

  lemma FormSize(f: Form)
    requires IsForm(f)
    ensures match f
            case Full(groups) => |groups| == 8
            case Gap(left, right) => |left| + |right| < 8
            case Trailing(groups) => |groups| == 8
  {
  }

  lemma ExpandForm(f: Form)
    requires IsForm(f)
    ensures Scan(ShowForm(f)).Some? &&
      Expand(Scan(ShowForm(f)).value.0, Scan(ShowForm(f)).value.1) == Some(FormBytes(f))
  {
    hide Scan, ShowForm, Bytes, IsForm;
    ScanForm(f);
    FormSize(f);
    if f.Gap? {
      assert (f.left + f.right)[..|f.left|] == f.left && (f.left + f.right)[|f.left|..] == f.right;
    }
  }

  /** Every spelling of an IPv6 address, with or without a prefix length, is read as that address. */
  lemma V6Shown(f: Form, prefix: Option<nat>)
    requires IsForm(f) && (prefix.Some? ==> prefix.value <= 128)
    ensures Ipv6Of(ShowForm(f) + ShowPrefix(prefix)) ==
      Some(Block(FormBytes(f), if prefix.Some? then prefix.value else 128, true))
  {
    ShowFormPlain(f);
    FindSplit(ShowForm(f), '/', ShowPrefix(prefix));
    ExpandForm(f);
    PrefixShown(prefix, 128);
  }

  // ---- Nothing else is read ----

  lemma {:induction false} GroupsAreJoined(t: string, before: seq<Group>, gap: nat) returns (groups: seq<Group>, k: string)
    requires t != "" && ReadGroups(t, before, gap).Some?
    ensures groups != [] && |before| + |groups| <= 8 && t == Join(groups, k)
    ensures k == "" || (gap == NO_GAP && |k| >= 2 && k[..2] == "::")
    ensures ReadGroups(t, before, gap) ==
      if k == "" then Some((before + groups, gap)) else ReadGroups(k[2..], before + groups, |before + groups|)
    decreases |t|
  {
    hide ReadGroups, AfterGroup, ReadGroup;
    ReadStep(t, before, gap);
    var (g, rest) := ReadGroup(t).value;
    AfterStep(rest, before + [g], gap);
    if rest == "" {
      ReadEnd(rest, before + [g], gap);
    }
    if rest == "" || rest[1] == ':' {
      groups, k := [g], rest;
    } else {
      var more;
      more, k := GroupsAreJoined(rest[1..], before + [g], gap);
      groups := [g] + more;
      assert before + [g] + more == before + groups;
      assert groups[1..] == more && rest == ":" + rest[1..];
    }
  }

  /** The scan of a text that begins with a group. */
  lemma TailIsForm(t: string) returns (f: Form)
    requires t != "" && ReadGroups(t, [], NO_GAP).Some?
    requires Expand(ReadGroups(t, [], NO_GAP).value.0, ReadGroups(t, [], NO_GAP).value.1).Some?
    ensures IsForm(f) && t == ShowForm(f)
  {
    hide ReadGroup, Bytes, ReadGroups, AfterGroup, Join;
    var left, k := GroupsAreJoined(t, [], NO_GAP);
    assert [] + left == left;
    if k == "" {
      f := Full(left);
    } else {
      var u := k[2..];
      assert k == "::" + u;
      if u == "" {
        EmptyScan(left, |left|);
        assert k == "::" && "::" + Join([], "") == "::";
        f := if |left| == 8 then Trailing(left) else Gap(left, []);
      } else {
        ReadStep(u, left, |left|);
        var right, k' := GroupsAreJoined(u, left, |left|);
        assert k' == "" && u == Join(right, "");
        f := Gap(left, right);
      }
    }
  }

  lemma EmptyScan(groups: seq<Group>, gap: nat)
    ensures ReadGroups("", groups, gap) == Some((groups, gap)) && Join([], "") == ""
  {
  }

  /** An accepted scan is the scan of a spelling. */
  lemma ScanIsForm(t: string) returns (f: Form)
    requires Scan(t).Some? && Expand(Scan(t).value.0, Scan(t).value.1).Some?
    ensures IsForm(f) && t == ShowForm(f)
  {
    hide ReadGroup, Bytes, ReadGroups, AfterGroup, Join;
    EmptyScan([], 0);
    EmptyScan([], NO_GAP);
    JoinNothing("::");
    if |t| >= 2 && t[0] == ':' && t[1] == ':' {
      var u := t[2..];
      assert t == "::" + u;
      if u == "" {
        assert "::" + Join([], "") == "::";
        f := Gap([], []);
      } else {
        var right, k := GroupsAreJoined(u, [], 0);
        assert [] + right == right;
        f := Gap([], right);
        JoinNothing("::" + u);
      }
    } else {
      f := TailIsForm(t);
    }
  }

  lemma JoinNothing(k: string)
    ensures Join([], k) == k
  {
  }

  /** Nothing but a spelling and a prefix length is read. */
  lemma V6Only(s: string) returns (f: Form, prefix: Option<nat>)
    requires Ipv6Of(s).Some?
    ensures IsForm(f) && (prefix.Some? ==> prefix.value <= 128) && s == ShowForm(f) + ShowPrefix(prefix)
  {
    hide Scan, Expand, ShowForm, IsForm, ReadPrefix, ShowPrefix;
    var q := Find(s, '/', 0);
    f := ScanIsForm(s[..q]);
    prefix := PrefixIsShown(s[q..], 128);
  }

  // ---- nxe_cedar_make_ip on spellings ----

  lemma {:induction false} JoinLength(groups: seq<Group>, k: string)
    ensures |Join(groups, k)| <= |k| + if groups == [] then 0 else 5 * |groups| - 1
    ensures |Join(groups, k)| >= |k| && Join(groups, k)[|Join(groups, k)| - |k|..] == k
    ensures |groups| > 1 ==> ':' in Join(groups, k)
    decreases |groups|
  {
    if |groups| > 1 {
      JoinLength(groups[1..], k);
    }
  }

  lemma FormLength(f: Form)
    requires IsForm(f)
    ensures |ShowForm(f)| <= if f.Trailing? then 41 else 39
    ensures ':' in ShowForm(f)
  {
    match f {
      case Full(groups) => JoinLength(groups, "");
      case Trailing(groups) => JoinLength(groups, "::");
      case Gap(left, right) =>
        var k := "::" + Join(right, "");
        JoinLength(right, "");
        JoinLength(left, k);
        assert k[0] == ':' && k[0] == Join(left, k)[|Join(left, k)| - |k|];
    }
  }

  lemma PrefixLength(prefix: Option<nat>)
    requires prefix.Some? ==> prefix.value <= 128
    ensures |ShowPrefix(prefix)| <= 4
  {
    if prefix.Some? {
      ShowNatLength(prefix.value);
    }
  }

  /** ip() of any spelling of RFC 4291, with any prefix length up to 128, is that address and prefix. */
  lemma V6MakeIp(f: Form, prefix: Option<nat>)
    requires IsForm(f) && !f.Trailing? && (prefix.Some? ==> prefix.value <= 128)
    ensures IpOf(ShowForm(f) + ShowPrefix(prefix)) ==
      Some(Block(FormBytes(f), if prefix.Some? then prefix.value else 128, true))
  {
    hide Ipv6Of, ShowForm, FormBytes, ShowPrefix, IsForm, Ipv4Of;
    V6Shown(f, prefix);
    FormLength(f);
    PrefixLength(prefix);
  }

  lemma {:induction false} OctetsLength(o: seq<nat>, rest: string)
    requires o != [] && AreOctets(o)
    ensures |o| <= |ShowOctets(o, rest)| <= |rest| + 4 * |o| - 1
    ensures ':' !in rest ==> ':' !in ShowOctets(o, rest)
    decreases |o|
  {
    hide ShowNat;
    ShowNatLength(o[0]);
    if |o| > 1 {
      OctetsLength(o[1..], rest);
    }
  }

  lemma V4MakeIp(o: seq<nat>, prefix: Option<nat>)
    requires |o| == 4 && AreOctets(o) && (prefix.Some? ==> prefix.value <= 32)
    ensures IpOf(ShowV4(o, prefix)) ==
      Some(Block(BytesOf(o) + Zeros(12), if prefix.Some? then prefix.value else 32, false))
  {
    assert ':' !in ShowPrefix(prefix);
    hide Ipv6Of, Ipv4Of, ShowPrefix, ShowNat, ShowOctets;
    V4Shown(o, prefix);
    OctetsLength(o, ShowPrefix(prefix));
    PrefixLength(prefix);
  }

  lemma {:induction false} BytesConcat(a: seq<Group>, b: seq<Group>)
    ensures Bytes(a + b) == Bytes(a) + Bytes(b)
    decreases |b|
  {
    if b == [] {
      assert a + b == a;
    } else {
      var b', g := b[..|b| - 1], b[|b| - 1];
      BytesConcat(a, b');
      assert (a + b)[..|a + b| - 1] == a + b';
    }
  }

  lemma {:induction false} ZeroBytes(groups: seq<Group>)
    requires forall g :: g in groups ==> HexNumber(g) == 0
    ensures Bytes(groups) == Zeros(2 * |groups|)
    decreases |groups|
  {
    if groups != [] {
      ZeroBytes(groups[..|groups| - 1]);
    }
  }

  lemma ZeroRunBytes(left: seq<Group>, zeros: seq<Group>, right: seq<Group>)
    requires |left| + |zeros| + |right| == 8 && zeros != [] && forall g :: g in zeros ==> HexNumber(g) == 0
    ensures Bytes(left) + Zeros(16 - 2 * |left| - 2 * |right|) + Bytes(right) == Bytes(left + zeros + right)
  {
    hide *;
    ZeroBytes(zeros);
    BytesConcat(left, zeros);
    BytesConcat(left + zeros, right);
    assert 16 - 2 * |left| - 2 * |right| == 2 * |zeros|;
  }

  lemma GapOrZeros(left: seq<Group>, zeros: seq<Group>, right: seq<Group>, all: seq<Group>)
    requires |left| + |zeros| + |right| == 8 && zeros != [] && forall g :: g in zeros ==> HexNumber(g) == 0
    requires all == left + zeros + right
    ensures IsForm(Gap(left, right)) && IsForm(Full(all))
    ensures FormBytes(Gap(left, right)) == FormBytes(Full(all)) == Bytes(all)
  {
    hide HexNumber, Bytes, Zeros, GroupBytes;
    ZeroRunBytes(left, zeros, right);
  }

  /** Writing any run of zero groups as `::`, wherever it stands, does not change what ip() returns. */
  lemma AnyZeroRun(left: seq<Group>, zeros: seq<Group>, right: seq<Group>, prefix: Option<nat>)
    requires |left| + |zeros| + |right| == 8 && zeros != [] && (prefix.Some? ==> prefix.value <= 128)
    requires forall g :: g in zeros ==> HexNumber(g) == 0
    ensures IpOf(Join(left, "::" + Join(right, "")) + ShowPrefix(prefix))
         == IpOf(Join(left + zeros + right, "") + ShowPrefix(prefix))
         == Some(Block(Bytes(left + zeros + right), if prefix.Some? then prefix.value else 128, true))
  {
    hide IpOf, Join, HexNumber, Bytes, Zeros, FormBytes, IsForm, ShowPrefix;
    var all := left + zeros + right;
    GapOrZeros(left, zeros, right, all);
    V6MakeIp(Full(all), prefix);
    V6MakeIp(Gap(left, right), prefix);
  }

  function HexDigit(d: nat): (c: char)
    requires d < 16
    ensures HexVal(c) == Some(d)
  {
    if d < 10 then ('0' as int + d) as char else ('a' as int + d - 10) as char
  }

  /** Four digits for 16 bits. */
  function ShowGroup(v: nat): (g: Group)
    requires v < 0x1_0000
    ensures |g| == 4
  {
    [HexDigit(v / 4096), HexDigit(v / 256 % 16), HexDigit(v / 16 % 16), HexDigit(v % 16)]
  }

  lemma GroupShown(v: nat)
    requires v < 0x1_0000
    ensures HexNumber(ShowGroup(v)) == v
  {
    hide HexNumber, HexDigit;
    FourDigits(HexDigit(v / 4096), HexDigit(v / 256 % 16), HexDigit(v / 16 % 16), HexDigit(v % 16));
    Nibbles(v);
  }

  lemma FourDigits(a: char, b: char, c: char, d: char)
    requires HexVal(a).Some? && HexVal(b).Some? && HexVal(c).Some? && HexVal(d).Some?
    ensures HexNumber([a, b, c, d]) ==
      ((HexVal(a).value * 16 + HexVal(b).value) * 16 + HexVal(c).value) * 16 + HexVal(d).value
  {
    assert HexNumber("") == 0;
    hide HexNumber, HexVal;
    assert "" + [a] == [a] && [a] + [b] == [a, b] && [a, b] + [c] == [a, b, c] && [a, b, c] + [d] == [a, b, c, d];
    HexNumberSnoc("", a);
    HexNumberSnoc([a], b);
    HexNumberSnoc([a, b], c);
    HexNumberSnoc([a, b, c], d);
  }

  lemma Nibbles(v: nat)
    ensures (((v / 4096) * 16 + v / 256 % 16) * 16 + v / 16 % 16) * 16 + v % 16 == v
  {
    assert v / 4096 == v / 256 / 16 && v / 256 == v / 16 / 16;
  }

  /** Two bytes as one number, high byte first. */
  function Word(hi: Byte, lo: Byte): (v: nat)
    ensures v < 0x1_0000
  {
    hi * 256 + lo
  }

  lemma WordBytes(hi: Byte, lo: Byte)
    ensures ByteOf(Word(hi, lo) / 256) == hi && ByteOf(Word(hi, lo)) == lo
  {
  }

  lemma GroupBytesShown(hi: Byte, lo: Byte)
    ensures GroupBytes(ShowGroup(Word(hi, lo))) == [hi, lo]
  {
    GroupShown(Word(hi, lo));
    WordBytes(hi, lo);
  }

  function ShowAddr(addr: seq<Byte>): (groups: seq<Group>)
    requires |addr| % 2 == 0
    ensures 2 * |groups| == |addr|
  {
    if addr == [] then []
    else ShowAddr(addr[..|addr| - 2]) + [ShowGroup(Word(addr[|addr| - 2], addr[|addr| - 1]))]
  }

  lemma {:induction false} AddrShown(addr: seq<Byte>)
    requires |addr| % 2 == 0
    ensures Bytes(ShowAddr(addr)) == addr
    decreases |addr|
  {
    hide *;
    if addr == [] {
      NoGroups();
    } else {
      var a, hi, lo := addr[..|addr| - 2], addr[|addr| - 2], addr[|addr| - 1];
      AddrShown(a);
      ShowAddrPush(a, hi, lo);
      GroupBytesShown(hi, lo);
      BytesPush(ShowAddr(a), ShowGroup(Word(hi, lo)));
      assert addr == a + [hi, lo];
    }
  }

  lemma NoGroups()
    ensures ShowAddr([]) == [] && Bytes([]) == []
  {
  }

  lemma ShowAddrPush(addr: seq<Byte>, hi: Byte, lo: Byte)
    requires |addr| % 2 == 0
    ensures ShowAddr(addr + [hi, lo]) == ShowAddr(addr) + [ShowGroup(Word(hi, lo))]
  {
    hide Word, ShowGroup;
    assert (addr + [hi, lo])[..|addr|] == addr;
  }

  lemma BytesPush(groups: seq<Group>, g: Group)
    ensures Bytes(groups + [g]) == Bytes(groups) + GroupBytes(g)
  {
    assert (groups + [g])[..|groups|] == groups;
  }

  /** Printing any IPv6 block and reading it back. */
  lemma ReadPrinted(ip: Ip)
    requires ip.v6 && ip.prefix <= 128
    ensures IpOf(Join(ShowAddr(ip.addr), "") + ShowPrefix(Some(ip.prefix))) == Some(ip)
  {
    hide IpOf, Join, ShowAddr, ShowPrefix;
    AddrShown(ip.addr);
    V6MakeIp(Full(ShowAddr(ip.addr)), Some(ip.prefix));
  }

  /** What ip() reads: dotted quads, the spellings above, and eight groups followed by `::`. */
  lemma IpOnly(s: string) returns (v4: bool, o: seq<nat>, f: Form, prefix: Option<nat>)
    requires IpOf(s).Some?
    ensures v4 ==> |o| == 4 && AreOctets(o) && s == ShowV4(o, prefix) && (prefix.Some? ==> prefix.value <= 32)
    ensures !v4 ==> IsForm(f) && s == ShowForm(f) + ShowPrefix(prefix) && (prefix.Some? ==> prefix.value <= 128)
  {
    hide Ipv6Of, Ipv4Of, ShowForm, ShowV4, ShowPrefix, IsForm;
    f := Full([]);
    o := [];
    v4 := ':' !in s;
    if v4 {
      o, prefix := V4Only(s);
    } else {
      f, prefix := V6Only(s);
    }
  }

  /**
   * The sentinel for "no gap" is also the number of groups, so eight groups and a closing `::` are
   * read as if the `::` were not there, although it has no group to stand for.
   */
  lemma EightAndGap(groups: seq<Group>, prefix: Option<nat>)
    requires |groups| == 8 && (prefix.Some? ==> prefix.value <= 128)
    ensures var s, t := Join(groups, "::") + ShowPrefix(prefix), Join(groups, "") + ShowPrefix(prefix);
      IpOf(t) == Some(Block(Bytes(groups), if prefix.Some? then prefix.value else 128, true))
      && IpOf(s) == if |s| <= 43 then IpOf(t) else None
  {
    assert ShowForm(Full(groups)) == Join(groups, "") && ShowForm(Trailing(groups)) == Join(groups, "::");
    assert FormBytes(Full(groups)) == Bytes(groups) == FormBytes(Trailing(groups));
    hide Ipv6Of, Ipv4Of, ShowForm, FormBytes, ShowPrefix, Join, Bytes;
    V6Shown(Trailing(groups), prefix);
    V6MakeIp(Full(groups), prefix);
    FormLength(Trailing(groups));
  }

  // ---- The source's loops ----

  /** The digits of one group, from p up to the next colon or `end`: the value and where it stops. */
  method ParseGroup(s: string, start: nat, end: nat) returns (r: Option<(nat, nat)>)
    requires start < end <= |s|
    ensures r.Some? <==> ReadGroup(s[start..end]).Some?
    ensures r.Some? ==> start < r.value.1 <= end && AllHex(s[start..r.value.1]) && r.value.0 == HexNumber(s[start..r.value.1])
    ensures r.Some? ==> ReadGroup(s[start..end]) == Some((s[start..r.value.1], s[r.value.1..end]))
  {
    hide HexVal, ReadGroup, DigitsRead;
    ghost var t := s[start..end];
    var p, val, digits: nat := start, 0, 0;
    if HexVal(s[p]).None? {
      NoGroup(t, 0);
      return None;
    }
    NoDigitsRead(s, start);
    while p < end && s[p] != ':'
      invariant p == start + digits <= end && digits <= 4 && (digits == 0 ==> s[p] != ':')
      invariant DigitsRead(s, start, p, val)
    {
      digits := digits + 1;
      if digits > 4 {
        BadGroup(s, start, p, end, val);
        return None;
      }
      var v := HexVal(s[p]);
      if v.None? {
        BadGroup(s, start, p, end, val);
        return None;
      }
      OneMoreDigit(s, start, p, val);
      val := val * 16 + v.value;
      p := p + 1;
    }
    GroupRead(s, start, p, end, val);
    return Some((val, p));
  }

  /** s[start..p] is hexadecimal digits of value val. */
  ghost predicate DigitsRead(s: string, start: nat, p: nat, val: nat) {
    start <= p <= |s| && ':' !in s[start..p] && AllHex(s[start..p]) && val == HexNumber(s[start..p])
  }

  lemma NoDigitsRead(s: string, start: nat)
    requires start < |s| && HexVal(s[start]).Some?
    ensures DigitsRead(s, start, start, 0) && s[start] != ':'
  {
    assert s[start..start] == "";
  }

  lemma OneMoreDigit(s: string, start: nat, p: nat, val: nat)
    requires DigitsRead(s, start, p, val) && p < |s| && s[p] != ':' && HexVal(s[p]).Some?
    ensures DigitsRead(s, start, p + 1, val * 16 + HexVal(s[p]).value)
  {
    hide HexNumber;
    assert s[start..p + 1] == s[start..p] + [s[p]];
    HexNumberSnoc(s[start..p], s[p]);
  }

  lemma BadGroup(s: string, start: nat, p: nat, end: nat, val: nat)
    requires DigitsRead(s, start, p, val) && p < end <= |s| && s[p] != ':'
    requires p - start >= 4 || HexVal(s[p]).None?
    ensures ReadGroup(s[start..end]).None?
  {
    hide HexNumber;
    assert s[start..end][..p - start] == s[start..p] && s[start..end][p - start] == s[p];
    NoGroup(s[start..end], p - start);
  }

  lemma GroupRead(s: string, start: nat, p: nat, end: nat, val: nat)
    requires DigitsRead(s, start, p, val) && 1 <= p - start <= 4 && p <= end <= |s| && (p == end || s[p] == ':')
    ensures AllHex(s[start..p]) && val == HexNumber(s[start..p])
    ensures ReadGroup(s[start..end]) == Some((s[start..p], s[p..end]))
  {
    hide HexNumber;
    assert s[start..end] == s[start..p] + s[p..end];
    ReadGroupAt(s[start..p], s[p..end]);
  }

  lemma NoGroup(t: string, i: nat)
    requires i < |t| && ':' !in t[..i]
    requires if i >= 4 then t[i] != ':' else HexVal(t[i]).None? && (t[i] != ':' || i == 0)
    ensures ReadGroup(t).None?
  {
    var q := Find(t, ':', 0);
    assert forall k :: 0 <= k < i ==> t[..i][k] == t[k] != ':';
    assert i < q ==> t[..q][i] == t[i];
  }

  lemma BytesSnoc(groups: seq<Group>, i: nat)
    requires i < |groups|
    ensures Bytes(groups[..i + 1]) == Bytes(groups[..i]) + GroupBytes(groups[i])
  {
    assert groups[..i + 1][..i] == groups[..i];
  }

  /** One group, as two bytes at pos. */
  method StoreGroup(v: nat, pos: nat, addr: array<Byte>)
    requires pos + 1 < addr.Length
    modifies addr
    ensures addr[..] == old(addr[..])[pos := ByteOf(v / 256)][pos + 1 := ByteOf(v)]
  {
    addr[pos] := ByteOf(v / 256);
    addr[pos + 1] := ByteOf(v);
  }

  /** Copies `count` groups from `from` on to the address, two bytes each, starting at group `at`. */
  method Store(values: array<nat>, from: nat, count: nat, at: nat, addr: array<Byte>, ghost groups: seq<Group>)
    requires values.Length == 8 && addr.Length == 16 && at + count <= 8 && |groups| == count && from + count <= 8
    requires forall i :: 0 <= i < count ==> values[from + i] == HexNumber(groups[i])
    modifies addr
    ensures addr[..] == old(addr[..])[..2 * at] + Bytes(groups) + old(addr[..])[2 * (at + count)..]
  {
    assert Bytes([]) == [];
    hide Bytes, GroupBytes, HexNumber;
    var i, pos := 0, 2 * at;
    ghost var before := addr[..];
    assert groups[..0] == [];
    while i < count
      invariant 0 <= i <= count && pos == 2 * (at + i)
      invariant |Bytes(groups[..i])| == 2 * i && addr[..] == before[..2 * at] + Bytes(groups[..i]) + before[pos..]
    {
      BytesSnoc(groups, i);
      ghost var now := addr[..];
      StoreGroup(values[from + i], pos, addr);
      StoreStep(before[..2 * at], Bytes(groups[..i]), before[pos..], groups[i], now, pos);
      assert before[pos..][2..] == before[pos + 2..];
      i, pos := i + 1, pos + 2;
    }
    assert groups[..i] == groups;
  }

  lemma StoreStep(a: seq<Byte>, b: seq<Byte>, c: seq<Byte>, g: Group, now: seq<Byte>, pos: nat)
    requires |c| >= 2 && now == a + b + c && pos == |a + b|
    ensures now[pos := ByteOf(HexNumber(g) / 256)][pos + 1 := ByteOf(HexNumber(g))] == a + (b + GroupBytes(g)) + c[2..]
  {
    hide HexNumber;
  }

  /** The groups of s[..end], in order, and where their gap is. */
  method ParseGroups(s: string, end: nat, groups: array<nat>) returns (ok: bool, n: nat, gap: nat, ghost seen: seq<Group>)
    requires end <= |s| && groups.Length == 8
    modifies groups
    ensures ok <==> Scan(s[..end]).Some?
    ensures ok ==> Scan(s[..end]) == Some((seen, gap)) && n == |seen| <= 8
    ensures ok ==> forall i :: 0 <= i < n ==> groups[i] == HexNumber(seen[i])
  {
    hide ReadGroup, ReadGroups, AfterGroup, HexNumber;
    var p: nat := 0;
    ok, n, gap, seen := false, 0, NO_GAP, [];
    assert s[0..end] == s[..end];
    if end >= 2 && s[0] == ':' && s[1] == ':' {
      gap := 0;
      p := 2;
      assert s[..end][2..] == s[2..end];
    }
    while p < end
      invariant p <= end && n == |seen| <= 8
      invariant forall i :: 0 <= i < n ==> groups[i] == HexNumber(seen[i])
      invariant ReadGroups(s[p..end], seen, gap) == Scan(s[..end])
    {
      ReadStep(s[p..end], seen, gap);
      if n >= 8 {
        return;
      }
      var g := ParseGroup(s, p, end);
      if g.None? {
        return;
      }
      ghost var t := s[g.value.1..end];
      AfterStep(t, seen + [s[p..g.value.1]], gap);
      groups[n] := g.value.0;
      seen := seen + [s[p..g.value.1]];
      n, p := n + 1, g.value.1;
      assert p < end ==> t[0] == s[p];
      if p < end && s[p] == ':' {
        p := p + 1;
        assert t[1..] == s[p..end];
        if p < end && s[p] == ':' {
          assert t[1] == s[p];
          if gap != NO_GAP {
            return;
          }
          gap := n;
          p := p + 1;
          assert t[2..] == s[p..end];
        } else if p >= end {
          return;
        } else {
          assert t[1] == s[p];
        }
      }
    }
    ReadEnd(s[p..end], seen, gap);
    ok := true;
  }

  /** nxe_cedar_parse_ipv6: the address is written into `addr`, which has been zeroed. */
  method ParseIpv6(s: string, addr: array<Byte>) returns (r: Option<nat>)
    requires addr.Length == 16 && addr[..] == Zeros(16)
    modifies addr
    ensures r.Some? <==> Ipv6Of(s).Some?
    ensures r.Some? ==> Ipv6Of(s) == Some(Block(addr[..], r.value, true))
  {
    hide Scan, Bytes, HexNumber, ReadPrefix;
    var end := Find(s, '/', 0);
    var groups := new nat[8];
    var ok, n, gap, seen := ParseGroups(s, end, groups);
    if !ok {
      return None;
    }
    if gap == NO_GAP {
      if n != 8 {
        return None;
      }
      Store(groups, 0, 8, 0, addr, seen);
    } else {
      if n < gap {
        return None;
      }
      var tail := n - gap;
      if gap + tail >= 8 {
        return None;
      }
      Store(groups, 0, gap, 0, addr, seen[..gap]);
      Store(groups, gap, tail, 8 - tail, addr, seen[gap..]);
    }
    assert addr[..] == Expand(seen, gap).value;
    r := ParsePrefix(s, end, 128);
  }

  method MakeIp(s: string) returns (r: Option<Ip>)
    ensures r == IpOf(s)
  {
    if |s| == 0 || |s| > 43 {
      return None;
    }
    var addr := new Byte[16](_ => 0);
    assert addr[..] == Zeros(16);
    var prefix: Option<nat>;
    if ':' !in s {
      prefix := ParseIpv4(s, addr);
      return if prefix.None? then None else Some(Block(addr[..], prefix.value, false));
    }
    prefix := ParseIpv6(s, addr);
    return if prefix.None? then None else Some(Block(addr[..], prefix.value, true));
  }
}
