/**
 * Datetime literals (nxe_cedar_make_datetime): `YYYY-MM-DD`, or with `Thh:mm:ss(.SSS)?(Z|±hhmm)`,
 * read as UTC milliseconds since 1970-01-01; and the toDate and toTime methods.
 */
module Datetime {
  import opened Common
  import opened Civil
  import opened Reading

  datatype Zone = Utc | Offset(west: bool, hours: nat, minutes: nat)
  datatype Clock = Clock(hour: nat, minute: nat, second: nat, millis: Option<nat>, zone: Zone)
  datatype Stamp = Stamp(year: nat, month: nat, day: nat, clock: Option<Clock>)

  const DAY_MS := 86400000

  predicate ValidZone(z: Zone) {
    z.Utc? || (z.hours <= 23 && z.minutes <= 59)
  }

  predicate ValidClock(c: Clock) {
    c.hour <= 23 && c.minute <= 59 && c.second <= 59 && (c.millis.Some? ==> c.millis.value <= 999) && ValidZone(c.zone)
  }

  predicate Valid(st: Stamp) {
    st.year <= 9999 && IsDate(st.year, st.month, st.day) && (st.clock.Some? ==> ValidClock(st.clock.value))
  }

  function ZoneMinutes(z: Zone): int {
    match z
    case Utc => 0
    case Offset(west, h, m) => if west then -(h * 60 + m) else h * 60 + m
  }

  /** Milliseconds from midnight UTC of the written date to the written time. */
  function ClockMs(c: Clock): int {
    ((c.hour * 60 + c.minute) * 60 + c.second) * 1000 + (if c.millis.Some? then c.millis.value else 0)
    - ZoneMinutes(c.zone) * 60000
  }

  /** The UTC instant a stamp denotes. */
  function Instant(st: Stamp): int {
    DaysFromCivil(st.year, st.month, st.day) * DAY_MS + (if st.clock.Some? then ClockMs(st.clock.value) else 0)
  }

  // ---- Spelling ----

  function ShowZone(z: Zone): string {
    match z
    case Utc => "Z"
    case Offset(west, h, m) => [if west then '-' else '+'] + (Pad(h, 2) + (Pad(m, 2) + ""))
  }

  function ShowMillis(millis: Option<nat>, rest: string): string {
    match millis
    case None => rest
    case Some(ms) => ['.'] + (Pad(ms, 3) + rest)
  }

  function ShowClock(c: Clock): string {
    ['T'] + (Pad(c.hour, 2) + ([':'] + (Pad(c.minute, 2) + ([':'] + (Pad(c.second, 2) +
    ShowMillis(c.millis, ShowZone(c.zone)))))))
  }

  function Show(st: Stamp): string {
    Pad(st.year, 4) + (['-'] + (Pad(st.month, 2) + (['-'] + (Pad(st.day, 2) +
    (if st.clock.Some? then ShowClock(st.clock.value) else "")))))
  }

  // ---- Reading ----

  function ZoneOf(s: string): Option<Zone> {
    if s == "Z" then Some(Utc)
    else if s != "" && (s[0] == '+' || s[0] == '-') then
      var (h, t) :- ReadUint(s[1..], 2);
      var (m, t') :- ReadUint(t, 2);
      if t' == "" && h <= 23 && m <= 59 then Some(Offset(s[0] == '-', h, m)) else None
    else None
  }

  function MillisOf(s: string): Option<(Option<nat>, string)> {
    if s != "" && s[0] == '.' then
      var (ms, t) :- ReadUint(s[1..], 3);
      Some((Some(ms), t))
    else Some((None, s))
  }

  /** `hh:mm:ss`, and what follows. */
  function TimeFields(s: string): (r: Option<(nat, nat, nat, string)>)
  {
    var (hour, t1) :- ReadUint(s, 2);
    var t2 :- Eat(t1, ':');
    var (minute, t3) :- ReadUint(t2, 2);
    var t4 :- Eat(t3, ':');
    var (second, t5) :- ReadUint(t4, 2);
    Some((hour, minute, second, t5))
  }

  function ClockOf(s: string): Option<Clock> {
    var t0 :- Eat(s, 'T');
    var (hour, minute, second, t1) :- TimeFields(t0);
    if hour > 23 || minute > 59 || second > 59 then None else
    var (millis, t2) :- MillisOf(t1);
    var zone :- ZoneOf(t2);
    Some(Clock(hour, minute, second, millis, zone))
  }

  /** `YYYY-MM-DD`, and what follows. */
  function DateFields(s: string): Option<(nat, nat, nat, string)> {
    var (year, t1) :- ReadUint(s, 4);
    var t2 :- Eat(t1, '-');
    var (month, t3) :- ReadUint(t2, 2);
    var t4 :- Eat(t3, '-');
    var (day, t5) :- ReadUint(t4, 2);
    Some((year, month, day, t5))
  }

  function StampOf(s: string): Option<Stamp> {
    var (year, month, day, t) :- DateFields(s);
    if !IsDate(year, month, day) then None
    else if t == "" then Some(Stamp(year, month, day, None))
    else
      var clock :- ClockOf(t);
      Some(Stamp(year, month, day, Some(clock)))
  }

  /** The value of a datetime literal. */
  function DatetimeOf(s: string): Option<int> {
    var st :- StampOf(s);
    Some(Instant(st))
  }

  // ---- Reading undoes spelling, and accepts nothing else ----

  lemma Powers()
    ensures Pow10(2) == 100 && Pow10(3) == 1000 && Pow10(4) == 10000
  {
    assert Pow10(0) == 1 && Pow10(1) == 10;
  }

  lemma ReadZone(z: Zone)
    requires ValidZone(z)
    ensures ZoneOf(ShowZone(z)) == Some(z)
    ensures ShowZone(z) != "" && ShowZone(z)[0] != '.'
  {
    Powers();
    match z
    case Utc =>
    case Offset(west, h, m) =>
      ReadPad(h, 2, Pad(m, 2) + "");
      ReadPad(m, 2, "");
  }

  lemma ReadMillis(millis: Option<nat>, rest: string)
    requires millis.Some? ==> millis.value <= 999
    requires rest != "" && rest[0] != '.'
    ensures MillisOf(ShowMillis(millis, rest)) == Some((millis, rest))
  {
    Powers();
    if millis.Some? {
      ReadPad(millis.value, 3, rest);
    }
  }

  lemma ReadClock(c: Clock)
    requires ValidClock(c)
    ensures ClockOf(ShowClock(c)) == Some(c)
  {
    hide Pad, ReadUint, Pow10, MillisOf, ShowMillis, ZoneOf, ShowZone;
    Powers();
    var t5 := ShowMillis(c.millis, ShowZone(c.zone));
    ReadZone(c.zone);
    ReadMillis(c.millis, ShowZone(c.zone));
    ReadPad(c.second, 2, t5);
    ReadPad(c.minute, 2, [':'] + (Pad(c.second, 2) + t5));
    ReadPad(c.hour, 2, [':'] + (Pad(c.minute, 2) + ([':'] + (Pad(c.second, 2) + t5))));
  }

  /** Every valid stamp is accepted, as the instant it denotes. */
  lemma ReadShow(st: Stamp)
    requires Valid(st)
    ensures StampOf(Show(st)) == Some(st) && DatetimeOf(Show(st)) == Some(Instant(st))
  {
    Powers();
    var t5 := if st.clock.Some? then ShowClock(st.clock.value) else "";
    if st.clock.Some? {
      ReadClock(st.clock.value);
    }
    ReadPad(st.day, 2, t5);
    ReadPad(st.month, 2, ['-'] + (Pad(st.day, 2) + t5));
    ReadPad(st.year, 4, ['-'] + (Pad(st.month, 2) + (['-'] + (Pad(st.day, 2) + t5))));
  }

  lemma ZoneIsShown(s: string)
    requires ZoneOf(s).Some?
    ensures ValidZone(ZoneOf(s).value) && s == ShowZone(ZoneOf(s).value)
  {
    if s != "Z" {
      ReadIsPad(s[1..], 2);
      var (h, t) := ReadUint(s[1..], 2).value;
      ReadIsPad(t, 2);
      assert s == [s[0]] + s[1..];
    }
  }

  lemma TimeIsShown(s: string)
    requires TimeFields(s).Some?
    ensures var (hour, minute, second, t) := TimeFields(s).value;
      s == Pad(hour, 2) + ([':'] + (Pad(minute, 2) + ([':'] + (Pad(second, 2) + t))))
  {
    ReadIsPad(s, 2);
    var t1 := ReadUint(s, 2).value.1;
    EatIs(t1, ':');
    var t2 := Eat(t1, ':').value;
    ReadIsPad(t2, 2);
    var t3 := ReadUint(t2, 2).value.1;
    EatIs(t3, ':');
    ReadIsPad(Eat(t3, ':').value, 2);
  }

  lemma MillisAreShown(s: string)
    requires MillisOf(s).Some?
    ensures var (millis, t) := MillisOf(s).value; (millis.Some? ==> millis.value <= 999) && s == ShowMillis(millis, t)
  {
    Powers();
    if s != "" && s[0] == '.' {
      ReadIsPad(s[1..], 3);
    }
  }

  lemma ClockIsShown(s: string)
    requires ClockOf(s).Some?
    ensures ValidClock(ClockOf(s).value) && s == ShowClock(ClockOf(s).value)
  {
    hide TimeFields, MillisOf, ZoneOf;
    EatIs(s, 'T');
    TimeIsShown(Eat(s, 'T').value);
    var (_, _, _, t1) := TimeFields(Eat(s, 'T').value).value;
    MillisAreShown(t1);
    ZoneIsShown(MillisOf(t1).value.1);
  }

  /** Only the texts of valid stamps are accepted. */
  lemma OnlyShown(s: string)
    requires StampOf(s).Some?
    ensures Valid(StampOf(s).value) && s == Show(StampOf(s).value)
  {
    Powers();
    ReadIsPad(s, 4);
    var t1 := ReadUint(s, 4).value.1;
    EatIs(t1, '-');
    var t2 := Eat(t1, '-').value;
    ReadIsPad(t2, 2);
    var t3 := ReadUint(t2, 2).value.1;
    EatIs(t3, '-');
    var t4 := Eat(t3, '-').value;
    ReadIsPad(t4, 2);
    var t5 := ReadUint(t4, 2).value.1;
    if t5 != "" {
      ClockIsShown(t5);
    }
  }

  // ---- Instants ----

  /** 0000-01-01T00:00:00.000Z and 9999-12-31T23:59:59.999Z. */
  const FIRST := -62167219200000
  const LAST := 253402300799999

  /** The first and last day a four-digit year can name. */
  lemma YearBounds()
    ensures DaysBeforeYear(0) * DAY_MS == FIRST && DaysBeforeYear(10000) * DAY_MS == LAST + 1
  {
    assert DaysFromCivil(0, 1, 1) == -719528;
    assert DaysFromCivil(10000, 1, 1) == 2932897;
    hide DaysFromCivil, DaysBeforeYear;
    YearStart(0);
    YearStart(10000);
  }

  /** An offset moves a time by less than a day. */
  lemma ClockBounds(c: Clock)
    requires ValidClock(c)
    ensures -DAY_MS < ClockMs(c) < 2 * DAY_MS
  {
  }

  /** No accepted literal leaves the 64-bit range: the arithmetic cannot overflow. */
  lemma InstantInRange(st: Stamp)
    requires Valid(st)
    ensures FIRST - DAY_MS < Instant(st) <= LAST + DAY_MS && InInt64(Instant(st))
  {
    var days := DaysFromCivil(st.year, st.month, st.day);
    IsDayCount(st.year, st.month, st.day);
    WithinYear(st.year, st.month, st.day);
    YearsGrow(0, st.year);
    YearsGrow(st.year + 1, 10000);
    YearBounds();
    assert FIRST <= days * DAY_MS <= LAST + 1 - DAY_MS;
    if st.clock.Some? {
      ClockBounds(st.clock.value);
    }
  }

  /** Every instant of the years 0000 to 9999 has a canonical UTC text with milliseconds, read as it. */
  lemma Canonical(ms: int) returns (st: Stamp)
    requires FIRST <= ms <= LAST
    ensures Valid(st) && st.clock.Some? && st.clock.value.zone == Utc && st.clock.value.millis.Some?
    ensures Instant(st) == ms && DatetimeOf(Show(st)) == Some(ms)
  {
    YearBounds();
    var n, r := ms / DAY_MS, ms % DAY_MS;
    var y, m, d := DateOf(n, 0, 9999);
    var seconds := r / 1000;
    var minutes := seconds / 60;
    st := Stamp(y, m, d, Some(Clock(minutes / 60, minutes % 60, seconds % 60, Some(r % 1000), Utc)));
    ReadShow(st);
  }

  /** The time of day as written, in milliseconds. */
  function LocalMs(c: Clock): int {
    ClockMs(c.(zone := Utc))
  }

  /** Between stamps with the same offset, the written order of date and time is the order of the instants. */
  lemma OrderIsInstantOrder(a: Stamp, b: Stamp)
    requires Valid(a) && Valid(b) && a.clock.Some? && b.clock.Some?
    requires ZoneMinutes(a.clock.value.zone) == ZoneMinutes(b.clock.value.zone)
    ensures Instant(a) < Instant(b) <==>
      Earlier(a.year, a.month, a.day, b.year, b.month, b.day)
      || ((a.year, a.month, a.day) == (b.year, b.month, b.day) && LocalMs(a.clock.value) < LocalMs(b.clock.value))
  {
    Monotone(a.year, a.month, a.day, b.year, b.month, b.day);
    Monotone(b.year, b.month, b.day, a.year, a.month, a.day);
    WithinDay(a.clock.value.(zone := Utc));
    WithinDay(b.clock.value.(zone := Utc));
    DaysApart(DaysFromCivil(a.year, a.month, a.day), LocalMs(a.clock.value),
              DaysFromCivil(b.year, b.month, b.day), LocalMs(b.clock.value));
  }

  /** The same date and time read as UTC. */
  function AsUtc(st: Stamp): Stamp
    requires st.clock.Some?
  {
    st.(clock := Some(st.clock.value.(zone := Utc)))
  }

  /** With different offsets, the written times are compared after taking the offsets away. */
  lemma OrderAcrossOffsets(a: Stamp, b: Stamp)
    requires Valid(a) && Valid(b) && a.clock.Some? && b.clock.Some?
    ensures Instant(a) < Instant(b) <==>
      Instant(AsUtc(a)) - Instant(AsUtc(b)) < (ZoneMinutes(a.clock.value.zone) - ZoneMinutes(b.clock.value.zone)) * 60000
  {
    OffsetsShift(a, Utc);
    OffsetsShift(b, Utc);
    ReadShow(a);
    ReadShow(b);
    ReadShow(AsUtc(a));
    ReadShow(AsUtc(b));
  }

  lemma WithinDay(c: Clock)
    requires ValidClock(c) && c.zone == Utc
    ensures 0 <= ClockMs(c) < DAY_MS
  {
  }

  lemma DaysApart(d: int, t: int, d': int, t': int)
    requires 0 <= t < DAY_MS && 0 <= t' < DAY_MS
    ensures d * DAY_MS + t < d' * DAY_MS + t' <==> d < d' || (d == d' && t < t')
  {
  }

  /** Writing the same local time with another offset moves the instant by the difference. */
  lemma OffsetsShift(st: Stamp, z: Zone)
    requires Valid(st) && st.clock.Some? && ValidZone(z)
    ensures var st' := st.(clock := Some(st.clock.value.(zone := z)));
      && DatetimeOf(Show(st')).Some? && DatetimeOf(Show(st)).Some?
      && DatetimeOf(Show(st')).value - DatetimeOf(Show(st)).value
        == (ZoneMinutes(st.clock.value.zone) - ZoneMinutes(z)) * 60000
  {
    ReadShow(st);
    ReadShow(st.(clock := Some(st.clock.value.(zone := z))));
  }

  /** The same date and time with another offset. */
  function WithZone(st: Stamp, z: Zone): Stamp
    requires st.clock.Some?
  {
    st.(clock := Some(st.clock.value.(zone := z)))
  }

  /** A text with the offset `+hhmm` is that much earlier than the same text with `Z`, one with `-hhmm` later. */
  lemma OffsetMeans(st: Stamp, hours: nat, minutes: nat)
    requires Valid(st) && st.clock.Some? && hours <= 23 && minutes <= 59
    ensures var utc := DatetimeOf(Show(WithZone(st, Utc)));
      && utc.Some?
      && DatetimeOf(Show(WithZone(st, Offset(false, hours, minutes)))) == Some(utc.value - (hours * 60 + minutes) * 60000)
      && DatetimeOf(Show(WithZone(st, Offset(true, hours, minutes)))) == Some(utc.value + (hours * 60 + minutes) * 60000)
  {
    hide *;
    ZonesAre(hours, minutes);
    ReadWithZone(st, Utc);
    ReadWithZone(st, Offset(false, hours, minutes));
    ReadWithZone(st, Offset(true, hours, minutes));
  }

  lemma ZonesAre(hours: nat, minutes: nat)
    requires hours <= 23 && minutes <= 59
    ensures ValidZone(Offset(false, hours, minutes)) && ValidZone(Offset(true, hours, minutes)) && ValidZone(Utc)
    ensures ZoneMinutes(Offset(false, hours, minutes)) == hours * 60 + minutes && ZoneMinutes(Utc) == 0
    ensures ZoneMinutes(Offset(true, hours, minutes)) == -(hours * 60 + minutes)
  {
  }

  lemma ReadWithZone(st: Stamp, z: Zone)
    requires Valid(st) && st.clock.Some? && ValidZone(z)
    ensures DatetimeOf(Show(WithZone(st, z))) == Some(Instant(WithZone(st, Utc)) - ZoneMinutes(z) * 60000)
  {
    hide DatetimeOf, Show, DaysFromCivil, ZoneMinutes;
    ReadShow(WithZone(st, z));
    UtcMinutes();
  }

  lemma UtcMinutes()
    ensures ZoneMinutes(Utc) == 0
  {
  }

  /** Without milliseconds, the text is read like the same text with `.000`. */
  lemma NoMillis(st: Stamp)
    requires Valid(st) && st.clock.Some? && st.clock.value.millis == Some(0)
    ensures DatetimeOf(Show(st.(clock := Some(st.clock.value.(millis := None))))) == DatetimeOf(Show(st))
  {
    hide *;
    NoMillisInstant(st);
    ReadShow(st);
    ReadShow(st.(clock := Some(st.clock.value.(millis := None))));
  }

  lemma NoMillisInstant(st: Stamp)
    requires Valid(st) && st.clock.Some? && st.clock.value.millis == Some(0)
    ensures var st' := st.(clock := Some(st.clock.value.(millis := None))); Valid(st') && Instant(st') == Instant(st)
  {
    hide DaysFromCivil, ZoneMinutes, IsDate, ValidZone;
  }

  /** A date alone is its midnight in UTC: the day number times the milliseconds of a day. */
  lemma DateMeans(year: nat, month: nat, day: nat)
    requires year <= 9999 && IsDate(year, month, day)
    ensures DatetimeOf(Show(Stamp(year, month, day, None))) == Some(DaysFromCivil(year, month, day) * 24 * 60 * 60 * 1000)
  {
    ReadShow(Stamp(year, month, day, None));
    hide DatetimeOf, Show, DaysFromCivil;
  }

  // ---- toDate and toTime ----

  /** The remainder of a day, made non-negative as the source does. */
  function ToTime(ms: int): int {
    var r := TruncRem(ms, DAY_MS);
    if r < 0 then r + DAY_MS else r
  }

  function ToDate(ms: int): int {
    ms - ToTime(ms)
  }

  /** The earliest 64-bit instant whose day begins within the 64-bit range. */
  const FIRST_DAY_START: int := -9223372036828800000

  /**
   * toDate is the start of the day and toTime what has passed of it; together they give the instant
   * back. The start of the day is a 64-bit integer exactly from FIRST_DAY_START on: below it the
   * source's `ms - r` overflows.
   */
  lemma DateAndTime(ms: int)
    requires InInt64(ms)
    ensures 0 <= ToTime(ms) < DAY_MS && ToDate(ms) % DAY_MS == 0 && ToDate(ms) + ToTime(ms) == ms
    ensures InInt64(ToDate(ms)) <==> ms >= FIRST_DAY_START
  {
    var q := TruncDiv(ms, DAY_MS);
    assert ms == q * DAY_MS + TruncRem(ms, DAY_MS);
    assert ToDate(ms) == (if TruncRem(ms, DAY_MS) < 0 then q - 1 else q) * DAY_MS;
  }

  /** INT64_MIN itself is such an instant: offset can produce it. */
  lemma ToDateOverflows()
    ensures !InInt64(ToDate(INT64_MIN))
  {
    DateAndTime(INT64_MIN);
  }

  /** toDate of a UTC stamp is its date alone. */
  lemma ToDateOfStamp(st: Stamp)
    requires Valid(st) && st.clock.Some? && st.clock.value.zone == Utc
    ensures ToDate(Instant(st)) == Instant(st.(clock := None))
    ensures ToTime(Instant(st)) == ClockMs(st.clock.value)
  {
    var days, t := DaysFromCivil(st.year, st.month, st.day), ClockMs(st.clock.value);
    WithinDay(st.clock.value);
    InstantInRange(st);
    DateAndTime(Instant(st));
    SameDay(days, t, ToDate(Instant(st)) / DAY_MS, ToTime(Instant(st)));
  }

  lemma SameDay(d: int, t: int, d': int, t': int)
    requires 0 <= t < DAY_MS && 0 <= t' < DAY_MS && d * DAY_MS + t == d' * DAY_MS + t'
    ensures d == d' && t == t'
  {
  }

  // ---- The source's reader ----

  method ReadZoneAt(s: string, p: nat) returns (r: Option<int>)
    requires p <= |s|
    ensures r == match ZoneOf(s[p..]) case None => None case Some(z) => Some(ZoneMinutes(z))
  {
    if p >= |s| {
      return None;
    }
    if s[p] == 'Z' {
      assert s[p..] == "Z" <==> p + 1 == |s|;
      return if p + 1 == |s| then Some(0) else None;
    }
    if s[p] != '+' && s[p] != '-' {
      return None;
    }
    assert s[p..][1..] == s[p + 1..];
    var h := ReadUintAt(s, p + 1, 2);
    if h.None? {
      return None;
    }
    var m := ReadUintAt(s, h.value.1, 2);
    if m.None? {
      return None;
    }
    if m.value.1 != |s| || h.value.0 > 23 || m.value.0 > 59 {
      return None;
    }
    var sign: int := if s[p] == '-' then -1 else 1;
    return Some(sign * (h.value.0 * 60 + m.value.0));
  }

  /** The optional `.SSS`: its value, and where the zone begins. */
  method ReadMillisAt(s: string, p: nat) returns (r: Option<(Option<nat>, nat)>)
    requires p <= |s|
    ensures r.Some? <==> MillisOf(s[p..]).Some?
    ensures r.Some? ==> p <= r.value.1 <= |s| && MillisOf(s[p..]) == Some((r.value.0, s[r.value.1..]))
  {
    if p < |s| && s[p] == '.' {
      assert s[p..][1..] == s[p + 1..];
      var frac := ReadUintAt(s, p + 1, 3);
      if frac.None? {
        return None;
      }
      return Some((Some(frac.value.0), frac.value.1));
    }
    return Some((None, p));
  }

  /** `hh:mm:ss`, and the index behind it. */
  method ReadTimeAt(s: string, p: nat) returns (r: Option<(nat, nat, nat, nat)>)
    requires p <= |s|
    ensures r.Some? <==> TimeFields(s[p..]).Some?
    ensures r.Some? ==> var (hour, minute, second, q) := r.value;
      p <= q <= |s| && TimeFields(s[p..]) == Some((hour, minute, second, s[q..]))
  {
    var hh := ReadUintAt(s, p, 2);
    if hh.None? {
      return None;
    }
    var q := hh.value.1;
    EatAt(s, q, ':');
    if q >= |s| || s[q] != ':' {
      return None;
    }
    var mm := ReadUintAt(s, q + 1, 2);
    if mm.None? {
      return None;
    }
    q := mm.value.1;
    EatAt(s, q, ':');
    if q >= |s| || s[q] != ':' {
      return None;
    }
    var ss := ReadUintAt(s, q + 1, 2);
    if ss.None? {
      return None;
    }
    return Some((hh.value.0, mm.value.0, ss.value.0, ss.value.1));
  }

  /** `YYYY-MM-DD`, and the index behind it. */
  method ReadDate(s: string) returns (r: Option<(nat, nat, nat, nat)>)
    ensures r.Some? <==> DateFields(s).Some?
    ensures r.Some? ==> var (year, month, day, q) := r.value;
      q <= |s| && DateFields(s) == Some((year, month, day, s[q..]))
  {
    assert s[0..] == s;
    var year := ReadUintAt(s, 0, 4);
    if year.None? {
      return None;
    }
    var q := year.value.1;
    EatAt(s, q, '-');
    if q >= |s| || s[q] != '-' {
      return None;
    }
    var month := ReadUintAt(s, q + 1, 2);
    if month.None? {
      return None;
    }
    q := month.value.1;
    EatAt(s, q, '-');
    if q >= |s| || s[q] != '-' {
      return None;
    }
    var day := ReadUintAt(s, q + 1, 2);
    if day.None? {
      return None;
    }
    return Some((year.value.0, month.value.0, day.value.0, day.value.1));
  }

  /** `Thh:mm:ss(.SSS)?(Z|±hhmm)` up to the end: its milliseconds. */
  method ReadClockAt(s: string, p: nat) returns (r: Option<int>)
    requires p < |s|
    ensures r == match ClockOf(s[p..]) case None => None case Some(c) => Some(ClockMs(c))
  {
    EatAt(s, p, 'T');
    if s[p] != 'T' {
      return None;
    }
    var time := ReadTimeAt(s, p + 1);
    if time.None? {
      return None;
    }
    var (hh, mm, ss, q) := time.value;
    if hh > 23 || mm > 59 || ss > 59 {
      return None;
    }
    var frac := ReadMillisAt(s, q);
    if frac.None? {
      return None;
    }
    var offset := ReadZoneAt(s, frac.value.1);
    if offset.None? {
      return None;
    }
    var millis := if frac.value.0.Some? then frac.value.0.value else 0;
    return Some(((hh * 60 + mm) * 60 + ss) * 1000 + millis - offset.value * 60000);
  }

  method MakeDatetime(s: string) returns (r: Option<int>)
    ensures r == DatetimeOf(s)
  {
    hide DaysFromCivil, DateFields, ClockOf, ClockMs;
    if |s| < 10 {
      TooShort(s);
      return None;
    }
    var date := ReadDate(s);
    if date.None? {
      return None;
    }
    var (y, m, d, p) := date.value;
    if m < 1 || m > 12 || d < 1 || d > DaysInMonth(y, m) {
      return None;
    }
    var ms := DaysFromCivil(y, m, d) * DAY_MS;
    if p < |s| {
      var clock := ReadClockAt(s, p);
      if clock.None? {
        return None;
      }
      ms := ms + clock.value;
    }
    return Some(ms);
  }

  lemma TooShort(s: string)
    requires |s| < 10
    ensures StampOf(s).None?
  {
    if StampOf(s).Some? {
      OnlyShown(s);
    }
  }
}
