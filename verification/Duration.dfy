/**
 * Duration literals (nxe_cedar_make_duration): an optional `-`, then at least one of the units
 * d, h, m, s, ms, each at most once and in this order, as a signed number of milliseconds.
 */
module Duration {
  import opened Common
  import opened Digits
  import D = Decimal

  datatype Unit = Days | Hours | Minutes | Seconds | Millis

  function Stage(u: Unit): nat {
    match u
    case Days => 0
    case Hours => 1
    case Minutes => 2
    case Seconds => 3
    case Millis => 4
  }

  function Factor(u: Unit): nat {
    match u
    case Days => 86400000
    case Hours => 3600000
    case Minutes => 60000
    case Seconds => 1000
    case Millis => 1
  }

  function Name(u: Unit): string {
    match u
    case Days => "d"
    case Hours => "h"
    case Minutes => "m"
    case Seconds => "s"
    case Millis => "ms"
  }

  /** A quantity with its unit. */
  datatype Group = Group(digits: DigitString, unit: Unit)

  function Amount(g: Group): nat {
    DecValue(g.digits) * Factor(g.unit)
  }

  function Total(groups: seq<Group>): nat {
    if groups == [] then 0 else Amount(groups[0]) + Total(groups[1..])
  }

  /** Units no coarser than `stage`, in strictly descending size, each with at least one digit. */
  predicate Descending(groups: seq<Group>, stage: nat) {
    groups == [] ||
    (groups[0].digits != "" && stage <= Stage(groups[0].unit) && Descending(groups[1..], Stage(groups[0].unit) + 1))
  }

  function Spell(groups: seq<Group>): string {
    if groups == [] then "" else groups[0].digits + Name(groups[0].unit) + Spell(groups[1..])
  }

  /** The unit that starts at q, and the index behind it: `ms` where an `s` follows the `m`. */
  function UnitAt(s: string, q: nat): (r: Option<(Unit, nat)>)
    ensures r.Some? ==> q < r.value.1 <= |s|
  {
    if q >= |s| then None
    else if s[q] == 'd' then Some((Days, q + 1))
    else if s[q] == 'h' then Some((Hours, q + 1))
    else if s[q] == 'm' then
      if q + 1 < |s| && s[q + 1] == 's' then Some((Millis, q + 2)) else Some((Minutes, q + 1))
    else if s[q] == 's' then Some((Seconds, q + 1))
    else None
  }

  function GroupAt(s: string, p: nat): (r: Option<(Group, nat)>)
    requires p <= |s|
    ensures r.Some? ==> p < r.value.1 <= |s| && r.value.0.digits != ""
  {
    var q := DigitSpan(s, p);
    if q == p then None
    else
      var (unit, e) :- UnitAt(s, q);
      Some((Group(s[p..q], unit), e))
  }

  function GroupsOf(s: string, p: nat, stage: nat): (r: Option<seq<Group>>)
    requires p <= |s|
    ensures r.Some? ==> Descending(r.value, stage)
    decreases |s| - p
  {
    if p == |s| then Some([])
    else
      var (g, e) :- GroupAt(s, p);
      if Stage(g.unit) < stage then None
      else
        var rest :- GroupsOf(s, e, Stage(g.unit) + 1);
        Some([g] + rest)
  }

  /** The value of a duration text. */
  function DurationOf(s: string): Option<int> {
    var negative := s != "" && s[0] == '-';
    var groups :- GroupsOf(s, if negative then 1 else 0, 0);
    var total: int := Total(groups);
    if groups == [] || total > INT64_MAX then None
    else Some(if negative then -total else total)
  }

  // ---- Reading undoes spelling, and accepts nothing else ----

  lemma NameAt(s: string, q: nat, u: Unit, rest: string)
    requires q <= |s| && s[q..] == Name(u) + rest
    requires u == Minutes ==> rest == "" || rest[0] != 's'
    ensures var e := q + |Name(u)|; e <= |s| && UnitAt(s, q) == Some((u, e)) && s[e..] == rest
  {
    var e := q + |Name(u)|;
    assert s[q..][|Name(u)|..] == s[e..] == rest;
    assert s[q] == s[q..][0];
    assert q + 1 < |s| ==> s[q + 1] == s[q..][1];
  }

  /** A group is read back, whatever group follows it. */
  lemma GroupIsRead(g: Group, rest: seq<Group>, s: string, p: nat)
    requires Descending([g] + rest, 0) && p <= |s| && s[p..] == g.digits + Name(g.unit) + Spell(rest)
    ensures GroupAt(s, p).Some? && GroupAt(s, p).value.0 == g && s[GroupAt(s, p).value.1..] == Spell(rest)
  {
    var q := p + |g.digits|;
    var tail := Name(g.unit) + Spell(rest);
    assert s[p..] == g.digits + tail;
    assert s[p..][..|g.digits|] == s[p..q] == g.digits;
    assert s[p..][|g.digits|..] == s[q..] == tail;
    assert s[q] == tail[0] == Name(g.unit)[0];
    DigitSpanIs(s, p, q);
    assert [g] + rest == [g] + rest[..];
    assert ([g] + rest)[1..] == rest;
    if rest != [] {
      assert Spell(rest)[0] == rest[0].digits[0];
    }
    NameAt(s, q, g.unit, Spell(rest));
  }

  lemma {:induction false} DescendingWeaker(groups: seq<Group>, stage: nat, stage': nat)
    requires Descending(groups, stage) && stage' <= stage
    ensures Descending(groups, stage')
  {
  }

  lemma {:induction false} GroupsAreRead(groups: seq<Group>, s: string, p: nat, stage: nat)
    requires Descending(groups, stage) && p <= |s| && s[p..] == Spell(groups)
    ensures GroupsOf(s, p, stage) == Some(groups)
    decreases |groups|
  {
    if groups != [] {
      var g, rest := groups[0], groups[1..];
      assert groups == [g] + rest;
      DescendingWeaker(groups, stage, 0);
      GroupIsRead(g, rest, s, p);
      GroupsAreRead(rest, s, GroupAt(s, p).value.1, Stage(g.unit) + 1);
    }
  }

  function SpellSigned(negative: bool, groups: seq<Group>): string {
    (if negative then "-" else "") + Spell(groups)
  }

  /** A well-formed duration is accepted exactly if its total fits, as its signed sum. */
  lemma DurationSpelled(negative: bool, groups: seq<Group>)
    requires groups != [] && Descending(groups, 0)
    ensures DurationOf(SpellSigned(negative, groups)) ==
      var total: int := Total(groups);
      if total > INT64_MAX then None else Some(if negative then -total else total)
  {
    var s := SpellSigned(negative, groups);
    var p := if negative then 1 else 0;
    assert s[p..] == Spell(groups);
    assert Spell(groups)[0] == groups[0].digits[0];
    GroupsAreRead(groups, s, p, 0);
  }

  /** All five units, from days down to milliseconds, with what each is worth. */
  lemma FiveUnits(d: DigitString, h: DigitString, m: DigitString, s: DigitString, ms: DigitString)
    requires d != "" && h != "" && m != "" && s != "" && ms != ""
    ensures DurationOf(d + "d" + (h + "h" + (m + "m" + (s + "s" + (ms + "ms"))))) ==
      InRange((((DecValue(d) * 24 + DecValue(h)) * 60 + DecValue(m)) * 60 + DecValue(s)) * 1000 + DecValue(ms))
  {
    hide *;
    var groups := Five(d, h, m, s, ms);
    PositiveDuration(groups);
  }

  /** n, if it is a 64-bit integer. */
  function InRange(n: nat): Option<int> {
    if n > 0x7fff_ffff_ffff_ffff then None else Some(n)
  }

  lemma PositiveDuration(groups: seq<Group>)
    requires groups != [] && Descending(groups, 0)
    ensures DurationOf(Spell(groups)) == InRange(Total(groups))
  {
    hide DurationOf, Spell, Total, Descending;
    DurationSpelled(false, groups);
    PositiveSpelled(groups);
  }

  lemma Sums(d: int, h: int, m: int, s: int, ms: int)
    ensures d * 86400000 + (h * 3600000 + (m * 60000 + (s * 1000 + ms * 1))) ==
      (((d * 24 + h) * 60 + m) * 60 + s) * 1000 + ms
  {
  }

  /** The five groups, what they spell and how much they are. */
  lemma Five(d: DigitString, h: DigitString, m: DigitString, s: DigitString, ms: DigitString) returns (groups: seq<Group>)
    requires d != "" && h != "" && m != "" && s != "" && ms != ""
    ensures groups != [] && Descending(groups, 0)
    ensures Spell(groups) == d + "d" + (h + "h" + (m + "m" + (s + "s" + (ms + "ms"))))
    ensures Total(groups) == (((DecValue(d) * 24 + DecValue(h)) * 60 + DecValue(m)) * 60 + DecValue(s)) * 1000 + DecValue(ms)
  {
    hide *;
    UnitsAre();
    var g5 := [Group(ms, Millis)];
    var g4 := [Group(s, Seconds)] + g5;
    var g3 := [Group(m, Minutes)] + g4;
    var g2 := [Group(h, Hours)] + g3;
    groups := [Group(d, Days)] + g2;
    LastGroup(Group(ms, Millis), Stage(Seconds) + 1);
    FirstGroup(Group(s, Seconds), g5, Stage(Minutes) + 1);
    FirstGroup(Group(m, Minutes), g4, Stage(Hours) + 1);
    FirstGroup(Group(h, Hours), g3, Stage(Days) + 1);
    FirstGroup(Group(d, Days), g2, 0);
    Sums(DecValue(d), DecValue(h), DecValue(m), DecValue(s), DecValue(ms));
  }

  lemma PositiveSpelled(groups: seq<Group>)
    ensures SpellSigned(false, groups) == Spell(groups)
  {
    assert "" + Spell(groups) == Spell(groups);
  }

  lemma UnitsAre()
    ensures Name(Days) == "d" && Name(Hours) == "h" && Name(Minutes) == "m" && Name(Seconds) == "s" && Name(Millis) == "ms"
    ensures Factor(Days) == 86400000 && Factor(Hours) == 3600000 && Factor(Minutes) == 60000 && Factor(Seconds) == 1000
    ensures Factor(Millis) == 1
    ensures Stage(Days) < Stage(Hours) < Stage(Minutes) < Stage(Seconds) < Stage(Millis)
    ensures INT64_MAX == 0x7fff_ffff_ffff_ffff
  {
  }

  lemma LastGroup(g: Group, stage: nat)
    ensures Spell([g]) == g.digits + Name(g.unit) && Total([g]) == DecValue(g.digits) * Factor(g.unit)
    ensures Descending([g], stage) <==> g.digits != "" && stage <= Stage(g.unit)
  {
    hide DecValue, Factor, Stage, Name;
    assert [g][1..] == [];
    assert g.digits + Name(g.unit) + "" == g.digits + Name(g.unit);
  }

  lemma FirstGroup(g: Group, rest: seq<Group>, stage: nat)
    ensures Spell([g] + rest) == g.digits + Name(g.unit) + Spell(rest)
    ensures Total([g] + rest) == DecValue(g.digits) * Factor(g.unit) + Total(rest)
    ensures Descending([g] + rest, stage) <==>
      g.digits != "" && stage <= Stage(g.unit) && Descending(rest, Stage(g.unit) + 1)
  {
    hide DecValue, Factor, Stage, Name;
    assert ([g] + rest)[1..] == rest;
  }

  lemma {:induction false} GroupsSpell(s: string, p: nat, stage: nat)
    requires p <= |s| && GroupsOf(s, p, stage).Some?
    ensures s[p..] == Spell(GroupsOf(s, p, stage).value)
    decreases |s| - p
  {
    hide GroupAt, Stage;
    if p < |s| {
      var (g, e) := GroupAt(s, p).value;
      GroupsSpell(s, e, Stage(g.unit) + 1);
      GroupSpelled(s, p);
      assert GroupsOf(s, p, stage).value[1..] == GroupsOf(s, e, Stage(g.unit) + 1).value;
    }
  }

  lemma GroupSpelled(s: string, p: nat)
    requires p <= |s| && GroupAt(s, p).Some?
    ensures var (g, e) := GroupAt(s, p).value; s[p..] == g.digits + Name(g.unit) + s[e..]
  {
    var (g, e) := GroupAt(s, p).value;
    var q := DigitSpan(s, p);
    assert s[q..e] == Name(g.unit);
    assert s[p..] == s[p..q] + s[q..e] + s[e..];
  }

  /** Only such texts are accepted. */
  lemma DurationGrammar(s: string) returns (negative: bool, groups: seq<Group>)
    requires DurationOf(s).Some?
    ensures groups != [] && Descending(groups, 0) && s == SpellSigned(negative, groups) && Total(groups) <= INT64_MAX
  {
    negative := s[0] == '-';
    var p := if negative then 1 else 0;
    groups := GroupsOf(s, p, 0).value;
    GroupsSpell(s, p, 0);
    assert s == s[..p] + s[p..];
  }

  // ---- The source's reader ----

  /** The unit at q, as its stage, its factor and the index behind it. */
  method ReadUnit(s: string, q: nat) returns (r: Option<(nat, nat, nat)>)
    ensures r.Some? <==> UnitAt(s, q).Some?
    ensures r.Some? ==> var (u, e) := UnitAt(s, q).value; r.value == (Stage(u), Factor(u), e)
  {
    if q >= |s| {
      return None;
    }
    if s[q] == 'd' {
      return Some((0, 86400000, q + 1));
    }
    if s[q] == 'h' {
      return Some((1, 3600000, q + 1));
    }
    if s[q] == 'm' {
      if q + 1 < |s| && s[q + 1] == 's' {
        return Some((4, 1, q + 2));
      }
      return Some((2, 60000, q + 1));
    }
    if s[q] == 's' {
      return Some((3, 1000, q + 1));
    }
    return None;
  }

  /** One round: the new total, the index behind the group and the next stage. */
  method ReadGroup(s: string, p: nat, stage: nat, total: int) returns (r: Option<(int, nat, nat)>)
    requires p < |s| && 0 <= total <= INT64_MAX
    ensures r == match GroupAt(s, p)
      case None => None
      case Some((g, e)) =>
        if stage <= Stage(g.unit) && total + Amount(g) <= INT64_MAX
        then Some((total + Amount(g), e, Stage(g.unit) + 1)) else None
  {
    if !IsDigit(s[p]) {
      return None;
    }
    var quantity := D.ReadWhole(s, p);
    if quantity.None? {
      if GroupAt(s, p).Some? {
        AmountAtLeast(GroupAt(s, p).value.0);
      }
      return None;
    }
    var unit := ReadUnit(s, quantity.value.1);
    if unit.None? {
      return None;
    }
    var (unitStage, factor, e) := unit.value;
    if unitStage < stage {
      return None;
    }
    var contrib := quantity.value.0 * factor;
    if contrib > INT64_MAX || total + contrib > INT64_MAX {
      return None;
    }
    return Some((total + contrib, e, unitStage + 1));
  }

  /** The loop over the groups from p on: their total, unless some step leaves the 64-bit range. */
  method ReadGroups(s: string, start: nat) returns (r: Option<(int, nat)>)
    requires start <= |s|
    ensures r == match GroupsOf(s, start, 0)
      case None => None
      case Some(groups) => if Total(groups) <= INT64_MAX then Some((Total(groups), |groups|)) else None
  {
    var p, total: int, stage, nunits := start, 0, 0, 0;
    while p < |s|
      invariant start <= p <= |s| && 0 <= total <= INT64_MAX
      invariant GroupsOf(s, start, 0).Some? == GroupsOf(s, p, stage).Some?
      invariant GroupsOf(s, p, stage).Some? ==>
        && Total(GroupsOf(s, start, 0).value) == total + Total(GroupsOf(s, p, stage).value)
        && |GroupsOf(s, start, 0).value| == nunits + |GroupsOf(s, p, stage).value|
      decreases |s| - p
    {
      var next := ReadGroup(s, p, stage, total);
      if next.None? {
        return None;
      }
      total, p, stage := next.value.0, next.value.1, next.value.2;
      nunits := nunits + 1;
    }
    return Some((total, nunits));
  }

  lemma AmountAtLeast(g: Group)
    ensures Amount(g) >= DecValue(g.digits)
  {
  }

  method MakeDuration(s: string) returns (r: Option<int>)
    ensures r == DurationOf(s)
  {
    if s == "" {
      return None;
    }
    var negative := s[0] == '-';
    var groups := ReadGroups(s, if negative then 1 else 0);
    if groups.None? || groups.value.1 == 0 {
      return None;
    }
    var total := groups.value.0;
    if negative {
      if !InInt64(0 - total) {
        // never: a total in [0, INT64_MAX] can be negated
        assert false;
      }
      total := 0 - total;
    }
    return Some(total);
  }
}
