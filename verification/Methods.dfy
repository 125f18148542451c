/**
 * What the methods mean, over evaluation: for any receiver and argument that evaluate to given values, the
 * value of the call, written out kind by kind.
 */
module Methods {
  import opened Common
  import opened IpText
  import opened Syntax
  import opened Values
  import opened Semantics
  import opened Operators
  import Cidr
  import Datetime
  import Equality

  ghost function Call0(obj: Node, callee: string, env: Env, b: Budget): Value {
    Eval(Call(obj, callee, None), env, b)
  }

  ghost function Call1(obj: Node, callee: string, arg: Node, env: Env, b: Budget): Value {
    Eval(Call(obj, callee, Some(arg)), env, b)
  }

  lemma Calls0(obj: Node, callee: string, env: Env, b: Budget)
    requires b != Left(0)
    ensures Call0(obj, callee, env, b) == Call0Of(callee, Sub(obj, env, b))
  {
    Unfold(Call(obj, callee, None), env, b);
    hide Eval, Call0Of;
  }

  lemma Calls1(obj: Node, callee: string, arg: Node, env: Env, b: Budget)
    requires b != Left(0)
    ensures Call1(obj, callee, arg, env, b) == Call1Of(callee, Sub(obj, env, b), Sub(arg, env, b))
  {
    Unfold(Call(obj, callee, Some(arg)), env, b);
    hide Eval, Call1Of;
  }

  // ---- Sets ----

  /** Values that can be compared without failing: within the limits, without errors, with unique keys. */
  predicate Comparable(vs: seq<Value>) {
    forall i :: 0 <= i < |vs| ==> Equality.Shallow(vs[i], 0) && UniqueKeys(vs[i]) && ErrorFree(vs[i])
  }

  /** x occurs in vs. */
  ghost predicate Occurs(x: Value, vs: seq<Value>) {
    exists i :: 0 <= i < |vs| && Equality.Same(x, vs[i])
  }

  lemma Decides(a: Value, c: Value)
    requires Equality.Shallow(a, 0) && UniqueKeys(a) && ErrorFree(c) && UniqueKeys(c)
    ensures Equality.Equal(a, c, 0) == if Equality.Same(a, c) then Equality.Yes else Equality.No
  {
    hide *;
    Equality.EqualIsSame(a, c, 0);
  }

  lemma {:induction false} AmongMeans(x: Value, vs: seq<Value>)
    requires Comparable(vs) && Comparable([x])
    ensures Among(x, vs) == if Occurs(x, vs) then Equality.Yes else Equality.No
    decreases |vs|
  {
    assert [x][0] == x;
    hide Equality.Equal, Equality.Same, Equality.Shallow, UniqueKeys, ErrorFree;
    if vs != [] {
      Decides(x, vs[0]);
      AmongMeans(x, vs[1..]);
      FirstOccurs(x, vs);
    }
  }

  lemma FirstOccurs(x: Value, vs: seq<Value>)
    requires vs != []
    ensures Occurs(x, vs) <==> Equality.Same(x, vs[0]) || Occurs(x, vs[1..])
  {
    hide Equality.Same;
    assert forall i :: 1 <= i < |vs| ==> vs[i] == vs[1..][i - 1];
    if Occurs(x, vs[1..]) {
      var i :| 0 <= i < |vs[1..]| && Equality.Same(x, vs[1..][i]);
      assert Equality.Same(x, vs[i + 1]);
    }
  }

  lemma {:induction false} ContainsMeans(vs: seq<Value>, x: Value)
    requires Comparable(vs) && Comparable([x])
    ensures Contains(vs, x) == if Occurs(x, vs) then Equality.Yes else Equality.No
    decreases |vs|
  {
    assert [x][0] == x;
    hide Equality.Equal, Equality.Same, Equality.Shallow, UniqueKeys, ErrorFree;
    if vs != [] {
      Decides(vs[0], x);
      if Equality.Same(vs[0], x) {
        Equality.Symmetric(vs[0], x);
      }
      if Equality.Same(x, vs[0]) {
        Equality.Symmetric(x, vs[0]);
      }
      ContainsMeans(vs[1..], x);
      FirstOccurs(x, vs);
    }
  }

  lemma {:induction false} AllAmong(vs: seq<Value>, xs: seq<Value>)
    requires Comparable(vs) && Comparable(xs)
    ensures ContainsAll(vs, xs) ==
      if forall j :: 0 <= j < |xs| ==> Occurs(xs[j], vs) then Equality.Yes else Equality.No
    decreases |xs|
  {
    hide Among, Occurs, Equality.Shallow, UniqueKeys, ErrorFree;
    if xs != [] {
      AmongMeans(xs[0], vs);
      AllAmong(vs, xs[1..]);
      assert forall j :: 1 <= j < |xs| ==> xs[j] == xs[1..][j - 1];
    }
  }

  lemma {:induction false} AnyAmong(vs: seq<Value>, xs: seq<Value>)
    requires Comparable(vs) && Comparable(xs)
    ensures ContainsAny(vs, xs) ==
      if exists j :: 0 <= j < |xs| && Occurs(xs[j], vs) then Equality.Yes else Equality.No
    decreases |xs|
  {
    hide Among, Occurs, Equality.Shallow, UniqueKeys, ErrorFree;
    if xs != [] {
      AmongMeans(xs[0], vs);
      AnyAmong(vs, xs[1..]);
      assert forall j :: 1 <= j < |xs| ==> xs[j] == xs[1..][j - 1];
      if exists j :: 0 <= j < |xs[1..]| && Occurs(xs[1..][j], vs) {
        var j :| 0 <= j < |xs[1..]| && Occurs(xs[1..][j], vs);
        assert Occurs(xs[j + 1], vs);
      }
    }
  }

  /** contains, containsAll and containsAny are membership, inclusion and overlap; isEmpty says there is no element. */
  lemma SetMethods(obj: Node, arg: Node, env: Env, b: Budget)
    requires b != Left(0) && Sub(obj, env, b).SetV?
    ensures var vs := Sub(obj, env, b).elts;
      && Call0(obj, "isEmpty", env, b) == BoolV(|vs| == 0)
      && (Comparable(vs) && Comparable([Sub(arg, env, b)]) ==>
            Call1(obj, "contains", arg, env, b) == BoolV(Occurs(Sub(arg, env, b), vs)))
      && (Comparable(vs) && Sub(arg, env, b).SetV? && Comparable(Sub(arg, env, b).elts) ==>
            var xs := Sub(arg, env, b).elts;
            && Call1(obj, "containsAll", arg, env, b) == BoolV(forall j :: 0 <= j < |xs| ==> Occurs(xs[j], vs))
            && Call1(obj, "containsAny", arg, env, b) == BoolV(exists j :: 0 <= j < |xs| && Occurs(xs[j], vs)))
  {
    Calls0(obj, "isEmpty", env, b);
    Calls1(obj, "contains", arg, env, b);
    Calls1(obj, "containsAll", arg, env, b);
    Calls1(obj, "containsAny", arg, env, b);
    var vs, x := Sub(obj, env, b).elts, Sub(arg, env, b);
    if Comparable(vs) && Comparable([x]) {
      assert !x.ErrorV? by { assert ErrorFree([x][0]); }
      ContainsMeans(vs, x);
    }
    if Comparable(vs) && x.SetV? && Comparable(x.elts) {
      AllAmong(vs, x.elts);
      AnyAmong(vs, x.elts);
    }
    hide Eval, Call0, Call1, Contains, ContainsAll, ContainsAny, Comparable, Occurs;
  }

  /** On anything but sets, and for anything but a set behind containsAll and containsAny, they are errors. */
  lemma SetMethodsErr(obj: Node, arg: Node, env: Env, b: Budget)
    requires b != Left(0)
    ensures !Sub(obj, env, b).SetV? ==>
      ErrorV == Call0(obj, "isEmpty", env, b) == Call1(obj, "contains", arg, env, b)
      == Call1(obj, "containsAll", arg, env, b) == Call1(obj, "containsAny", arg, env, b)
    ensures !Sub(arg, env, b).SetV? ==>
      ErrorV == Call1(obj, "containsAll", arg, env, b) == Call1(obj, "containsAny", arg, env, b)
    ensures Sub(arg, env, b).ErrorV? ==> ErrorV == Call1(obj, "contains", arg, env, b)
  {
    Calls0(obj, "isEmpty", env, b);
    Calls1(obj, "contains", arg, env, b);
    Calls1(obj, "containsAll", arg, env, b);
    Calls1(obj, "containsAny", arg, env, b);
    hide Eval, Call0, Call1, Contains, ContainsAll, ContainsAny;
  }

  // ---- Datetimes and durations ----

  predicate Is64(z: int) {
    -0x8000_0000_0000_0000 <= z <= 0x7fff_ffff_ffff_ffff
  }

  /** offset adds, durationSince subtracts; both are errors exactly outside 64 bits. */
  lemma DatetimeArithmetic(obj: Node, arg: Node, env: Env, b: Budget)
    requires b != Left(0) && Sub(obj, env, b).DatetimeV?
    ensures var ms, x := Sub(obj, env, b).ms, Sub(arg, env, b);
      && Call1(obj, "offset", arg, env, b) ==
           (if x.DurationV? && Is64(ms + x.length) then DatetimeV(ms + x.length) else ErrorV)
      && Call1(obj, "durationSince", arg, env, b) ==
           (if x.DatetimeV? && Is64(ms - x.ms) then DurationV(ms - x.ms) else ErrorV)
  {
    Calls1(obj, "offset", arg, env, b);
    Calls1(obj, "durationSince", arg, env, b);
    hide Eval, Call1;
  }

  /** toDate is the midnight before, toTime the time since. */
  lemma DateAndTimeOf(obj: Node, env: Env, b: Budget)
    requires b != Left(0) && Sub(obj, env, b).DatetimeV? && Is64(Sub(obj, env, b).ms)
    ensures var ms := Sub(obj, env, b).ms;
      && Call0(obj, "toDate", env, b) == DatetimeV(ms - ms % 86400000)
      && Call0(obj, "toTime", env, b) == DurationV(ms % 86400000)
  {
    var ms := Sub(obj, env, b).ms;
    Calls0(obj, "toDate", env, b);
    Calls0(obj, "toTime", env, b);
    Datetime.DateAndTime(ms);
    Floor(ms, Datetime.ToDate(ms));
    hide Eval, Call0, Datetime.ToDate, Datetime.ToTime;
  }

  lemma Floor(ms: int, day: int)
    requires day % 86400000 == 0 && day <= ms < day + 86400000
    ensures day == ms - ms % 86400000
  {
  }

  /** d in units of n, without its fraction. */
  function Whole(d: int, n: nat): int
    requires n > 0
  {
    if d >= 0 then d / n else -(-d / n)
  }

  /** A duration in milliseconds, and in whole seconds, minutes, hours and days. */
  lemma DurationUnits(obj: Node, env: Env, b: Budget)
    requires b != Left(0) && Sub(obj, env, b).DurationV?
    ensures var d := Sub(obj, env, b).length;
      && Call0(obj, "toMilliseconds", env, b) == LongV(d)
      && Call0(obj, "toSeconds", env, b) == LongV(Whole(d, 1000))
      && Call0(obj, "toMinutes", env, b) == LongV(Whole(d, 60 * 1000))
      && Call0(obj, "toHours", env, b) == LongV(Whole(d, 60 * 60 * 1000))
      && Call0(obj, "toDays", env, b) == LongV(Whole(d, 24 * 60 * 60 * 1000))
  {
    Calls0(obj, "toMilliseconds", env, b);
    Calls0(obj, "toSeconds", env, b);
    Calls0(obj, "toMinutes", env, b);
    Calls0(obj, "toHours", env, b);
    Calls0(obj, "toDays", env, b);
    hide Eval, Call0;
  }

  // ---- Decimals ----

  lemma DecimalComparisons(obj: Node, arg: Node, env: Env, b: Budget)
    requires b != Left(0) && Sub(obj, env, b).DecimalV?
    ensures var v, w := Sub(obj, env, b), Sub(arg, env, b);
      && Call1(obj, "lessThan", arg, env, b) == (if w.DecimalV? then BoolV(v.scaled < w.scaled) else ErrorV)
      && Call1(obj, "lessThanOrEqual", arg, env, b) == (if w.DecimalV? then BoolV(v.scaled <= w.scaled) else ErrorV)
      && Call1(obj, "greaterThan", arg, env, b) == (if w.DecimalV? then BoolV(v.scaled > w.scaled) else ErrorV)
      && Call1(obj, "greaterThanOrEqual", arg, env, b) == (if w.DecimalV? then BoolV(v.scaled >= w.scaled) else ErrorV)
  {
    Calls1(obj, "lessThan", arg, env, b);
    Calls1(obj, "lessThanOrEqual", arg, env, b);
    Calls1(obj, "greaterThan", arg, env, b);
    Calls1(obj, "greaterThanOrEqual", arg, env, b);
    hide Eval, Call1;
  }

  // ---- Addresses ----

  /** Families; a block lies in 127.0.0.0/8 or is ::1, and lies in 224.0.0.0/4 or ff00::/8. */
  lemma IpProperties(obj: Node, env: Env, b: Budget)
    requires b != Left(0) && Sub(obj, env, b).IpV?
    ensures var ip := Sub(obj, env, b).ip;
      && Call0(obj, "isIpv4", env, b) == BoolV(!ip.v6)
      && Call0(obj, "isIpv6", env, b) == BoolV(ip.v6)
      && Call0(obj, "isLoopback", env, b) ==
           BoolV(if ip.v6 then ip.prefix == 128 && ip.addr[..15] == Zeros(15) && ip.addr[15] == 1
                 else ip.prefix >= 8 && ip.addr[0] == 127)
      && Call0(obj, "isMulticast", env, b) ==
           BoolV(if ip.v6 then ip.prefix >= 8 && ip.addr[0] == 255 else ip.prefix >= 4 && ip.addr[0] / 16 == 14)
  {
    var ip := Sub(obj, env, b).ip;
    Calls0(obj, "isIpv4", env, b);
    Calls0(obj, "isIpv6", env, b);
    Calls0(obj, "isLoopback", env, b);
    Calls0(obj, "isMulticast", env, b);
    LoopbackIs(ip);
    MulticastIs(ip);
    hide Eval, Call0, Cidr.Contains;
  }

  lemma LoopbackIs(ip: Ip)
    ensures !ip.v6 ==> (Cidr.Contains(ip, LOOPBACK_V4) <==> ip.prefix >= 8 && ip.addr[0] == 127)
    ensures ip.v6 ==> (Cidr.Contains(ip, LOOPBACK_V6) <==> ip.prefix == 128 && ip.addr[..15] == Zeros(15) && ip.addr[15] == 1)
  {
    assert LOOPBACK_V4.addr[..1] == [127];
    assert ip.addr[..1] == [ip.addr[0]];
    assert LOOPBACK_V6.addr == Zeros(15) + [1] && LOOPBACK_V6.addr[..16] == Zeros(15) + [1];
    assert ip.addr[..16] == ip.addr[..15] + [ip.addr[15]];
    assert (Zeros(15) + [1])[..15] == Zeros(15) && (Zeros(15) + [1])[15] == 1;
    hide Cidr.KeepHigh;
  }

  lemma MulticastIs(ip: Ip)
    ensures !ip.v6 ==> (Cidr.Contains(ip, MULTICAST_V4) <==> ip.prefix >= 4 && ip.addr[0] / 16 == 14)
    ensures ip.v6 ==> (Cidr.Contains(ip, MULTICAST_V6) <==> ip.prefix >= 8 && ip.addr[0] == 255)
  {
    assert MULTICAST_V6.addr[..1] == [255] && ip.addr[..1] == [ip.addr[0]] && MULTICAST_V4.addr[0] == 224;
    TopFour(ip.addr[0]);
    hide Cidr.KeepHigh;
  }

  lemma TopFour(x: Byte)
    ensures Cidr.KeepHigh(x, 4) == Cidr.KeepHigh(224, 4) <==> x / 16 == 14
  {
    HighFour(x);
    HighFour(224);
    Cidr.ShiftInjective(Cidr.High(x, 4), Cidr.High(224, 4), 4);
  }

  lemma HighFour(x: Byte)
    ensures Cidr.High(x, 4) == x / 16
  {
    assert Cidr.High(x, 7) == x / 2;
    assert Cidr.High(x, 6) == x / 2 / 2;
    assert Cidr.High(x, 5) == x / 2 / 2 / 2;
  }

  /** isInRange is inclusion of address blocks of one family. */
  lemma InRange(obj: Node, arg: Node, env: Env, b: Budget)
    requires b != Left(0)
    ensures var v, w := Sub(obj, env, b), Sub(arg, env, b);
      Call1(obj, "isInRange", arg, env, b) ==
        if v.IpV? && w.IpV? then
          BoolV(v.ip.v6 == w.ip.v6 && forall a: Address :: Cidr.InBlock(a, v.ip) ==> Cidr.InBlock(a, w.ip))
        else ErrorV
  {
    Calls1(obj, "isInRange", arg, env, b);
    hide Eval, Call1, Cidr.Contains, Cidr.InBlock;
    var v, w := Sub(obj, env, b), Sub(arg, env, b);
    if v.IpV? && w.IpV? {
      Cidr.ContainsIsInclusion(v.ip, w.ip);
    }
  }

  // ---- Errors ----

  const TIME_METHODS: set<string> := {"toDate", "toTime"}
  const UNIT_METHODS: set<string> := {"toMilliseconds", "toSeconds", "toMinutes", "toHours", "toDays"}
  const IP_METHODS: set<string> := {"isIpv4", "isIpv6", "isLoopback", "isMulticast"}
  const SET_METHODS: set<string> := {"contains", "containsAll", "containsAny"}
  const DECIMAL_METHODS: set<string> := {"lessThan", "lessThanOrEqual", "greaterThan", "greaterThanOrEqual"}

  /** A method without argument on a value that does not have it is an error. */
  lemma NoSuchMethod0(obj: Node, callee: string, env: Env, b: Budget)
    requires b != Left(0)
    ensures var v := Sub(obj, env, b);
      Call0(obj, callee, env, b) == ErrorV <==>
        !(v.SetV? && callee == "isEmpty") && !(v.DatetimeV? && callee in TIME_METHODS)
        && !(v.DurationV? && callee in UNIT_METHODS) && !(v.IpV? && callee in IP_METHODS)
  {
    Calls0(obj, callee, env, b);
    hide Eval, Call0, Cidr.Contains, Datetime.ToDate, Datetime.ToTime, TruncDiv;
  }

  /** So is a method with an argument. */
  lemma NoSuchMethod1(obj: Node, callee: string, arg: Node, env: Env, b: Budget)
    requires b != Left(0)
    ensures var v := Sub(obj, env, b);
      !(v.SetV? && callee in SET_METHODS) && !(v.DatetimeV? && callee in {"offset", "durationSince"})
      && !(v.DecimalV? && callee in DECIMAL_METHODS) && !(v.IpV? && callee == "isInRange") ==>
        Call1(obj, callee, arg, env, b) == ErrorV
  {
    Calls1(obj, callee, arg, env, b);
    hide Eval, Call1, Cidr.Contains, Contains, ContainsAll, ContainsAny;
  }
}
