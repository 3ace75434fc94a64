/** Weekly recurring triggers (pkg/scheduler/scheduler.go). Times are nanoseconds since Go's zero time, which
    was a Monday; `zone` is how far the server's clock is ahead of UTC. */
module Scheduler {
  import opened Options
  import opened Text

  const SECOND: nat := 1_000_000_000
  const MINUTE: nat := 60 * SECOND
  const HOUR: nat := 60 * MINUTE
  const DAY: nat := 24 * HOUR
  const REFIRE_GAP: nat := 90 * SECOND
  const WEEK_MINUTES: nat := 10080

  datatype GameDaySchedule = GameDaySchedule(
    id: string, name: string, weekday: int, hour: nat, minute: nat, enabled: bool, lastFiredAt: nat)

  /** The weekday on the server; Sunday is 0, as in Go. */
  function Weekday(t: nat, zone: int): int { ((t + zone) / DAY + 1) % 7 }

  /** The time of day in UTC. */
  function HourOf(t: nat): nat { t % DAY / HOUR }
  function MinuteOf(t: nat): nat { t % HOUR / MINUTE }

  predicate InWindow(s: GameDaySchedule, now: nat, zone: int) {
    Weekday(now, zone) == s.weekday && HourOf(now) == s.hour && MinuteOf(now) == s.minute
  }

  predicate Matches(s: GameDaySchedule, now: nat, zone: int) {
    s.enabled && InWindow(s, now, zone) && now - s.lastFiredAt > REFIRE_GAP
  }

  // --- weekly windows as whole minutes

  function MinuteNumber(t: nat): nat { t / MINUTE }

  predicate ValidTime(s: GameDaySchedule) {
    0 <= s.weekday < 7 && s.hour < 24 && s.minute < 60
  }

  /** The named time of day. */
  function TimeOfDay(s: GameDaySchedule): nat {
    s.hour * HOUR + s.minute * MINUTE
  }

  /** How many days later it is on the server at that time. */
  function DayShift(s: GameDaySchedule, zone: int): int {
    (TimeOfDay(s) + zone) / DAY
  }

  /** The minute of the Monday-based week in UTC at which a schedule is due: its time of day is compared in
      UTC, its weekday on the server. */
  function WindowOf(s: GameDaySchedule, zone: int): (w: nat)
    requires ValidTime(s)
    ensures w < WEEK_MINUTES
  {
    (s.weekday - DayShift(s, zone) + 6) % 7 * 1440 + s.hour * 60 + s.minute
  }

  /** The minute of the week it names. */
  function NamedMinute(s: GameDaySchedule): nat
    requires ValidTime(s)
  {
    (s.weekday + 6) % 7 * 1440 + s.hour * 60 + s.minute
  }

  /** A schedule is due at the minute it names exactly when that moment falls on the same day on the server. */
  lemma DueAtNamedMinuteExactlyWhenSameDay(s: GameDaySchedule, zone: int)
    requires ValidTime(s) && 0 < DAY + zone && zone < DAY
    ensures WindowOf(s, zone) == NamedMinute(s) <==> 0 <= TimeOfDay(s) + zone < DAY
  {
    assert TimeOfDay(s) < DAY;
    assert -1 <= DayShift(s, zone) <= 1;
  }

  lemma Digits(q: nat, r: nat, unit: nat)
    requires r < unit
    ensures (q * unit + r) / unit == q && (q * unit + r) % unit == r
  {
    var t := q * unit + r;
    SameQuotient(q, r, t / unit, t % unit, unit);
  }

  lemma SameQuotient(q: nat, r: nat, k: nat, x: nat, unit: nat)
    requires r < unit && x < unit && q * unit + r == k * unit + x
    ensures q == k && r == x
  {
    assert q < k ==> (q + 1) * unit <= k * unit;
    assert k < q ==> (k + 1) * unit <= q * unit;
  }

  lemma Split(t: nat)
    ensures t % HOUR == t % DAY % HOUR
    ensures var d, h, m := t / DAY, HourOf(t), MinuteOf(t);
      h < 24 && m < 60 && MinuteNumber(t) == d * 1440 + h * 60 + m
  {
    var d, s := t / DAY, t % DAY;
    var h, r := s / HOUR, s % HOUR;
    var m, x := r / MINUTE, r % MINUTE;
    assert t == (d * 24 + h) * HOUR + r;
    Digits(d * 24 + h, r, HOUR);
    assert t == (d * 1440 + h * 60 + m) * MINUTE + x;
    Digits(d * 1440 + h * 60 + m, x, MINUTE);
  }

  lemma WeekOf(d: nat, rest: nat)
    requires rest < 1440
    ensures (d * 1440 + rest) % WEEK_MINUTES == d % 7 * 1440 + rest
  {
  }

  /** A moment is in the window exactly when its minute is the one of its week at which the schedule is due. */
  lemma WindowIsAMinute(s: GameDaySchedule, t: nat, zone: int)
    requires ValidTime(s) && zone % MINUTE == 0
    ensures InWindow(s, t, zone) <==> t / 60_000_000_000 % 10080 == WindowOf(s, zone)
  {
    MinuteOfWeek(t);
    if HourOf(t) == s.hour && MinuteOf(t) == s.minute {
      LocalDay(s, t, zone);
      SameDay(t / DAY, DayShift(s, zone), s.weekday);
    }
    SameDigits(t / DAY % 7, HourOf(t), MinuteOf(t), (s.weekday - DayShift(s, zone) + 6) % 7, s.hour, s.minute);
  }

  lemma MinuteOfWeek(t: nat)
    ensures HourOf(t) < 24 && MinuteOf(t) < 60
    ensures MinuteNumber(t) % WEEK_MINUTES == t / DAY % 7 * 1440 + HourOf(t) * 60 + MinuteOf(t)
  {
    Split(t);
    WeekOf(t / DAY, HourOf(t) * 60 + MinuteOf(t));
  }

  lemma SameDigits(d: nat, h: nat, m: nat, e: nat, i: nat, n: nat)
    requires h < 24 && i < 24 && m < 60 && n < 60
    ensures d * 1440 + h * 60 + m == e * 1440 + i * 60 + n <==> d == e && h == i && m == n
  {
  }

  lemma SameDay(d: nat, shift: int, weekday: int)
    requires 0 <= weekday < 7
    ensures (d + shift + 1) % 7 == weekday <==> d % 7 == (weekday - shift + 6) % 7
  {
  }

  lemma LocalDay(s: GameDaySchedule, t: nat, zone: int)
    requires zone % MINUTE == 0
    requires HourOf(t) == s.hour && MinuteOf(t) == s.minute
    ensures (t + zone) / DAY == t / DAY + DayShift(s, zone)
  {
    var x := t % MINUTE;
    TimeWithinDay(t);
    RoomForSeconds(TimeOfDay(s) + zone, x);
    var shift, rest := DayShift(s, zone), (TimeOfDay(s) + zone) % DAY;
    assert t + zone == (t / DAY + shift) * DAY + (rest + x);
    WholeDays(t / DAY + shift, rest + x);
  }

  lemma TimeWithinDay(t: nat)
    ensures t == t / DAY * DAY + HourOf(t) * HOUR + MinuteOf(t) * MINUTE + t % MINUTE
  {
    Split(t);
  }

  lemma RoomForSeconds(y: int, x: nat)
    requires y % MINUTE == 0 && x < MINUTE
    ensures y % DAY + x < DAY
  {
  }

  lemma WholeDays(q: int, r: nat)
    requires r < DAY
    ensures (q * DAY + r) / DAY == q
  {
  }

  // --- one schedule over any run of ticks and toggles

  datatype Op = TickAt(now: nat) | SetTo(enabled: bool)

  function Fire(s: GameDaySchedule, now: nat, zone: int): GameDaySchedule {
    if Matches(s, now, zone) then s.(lastFiredAt := now) else s
  }

  function Stepped(s: GameDaySchedule, op: Op, zone: int): GameDaySchedule {
    match op
    case TickAt(now) => Fire(s, now, zone)
    case SetTo(enabled) => s.(enabled := enabled)
  }

  function After(s: GameDaySchedule, ops: seq<Op>, zone: int): GameDaySchedule {
    if ops == [] then s else Stepped(After(s, ops[..|ops| - 1], zone), ops[|ops| - 1], zone)
  }

  /** The moments at which the schedule's trigger is called. */
  function Firings(s: GameDaySchedule, ops: seq<Op>, zone: int): seq<nat> {
    if ops == [] then [] else
      var front, op := ops[..|ops| - 1], ops[|ops| - 1];
      Firings(s, front, zone) + (if op.TickAt? && Matches(After(s, front, zone), op.now, zone) then [op.now] else [])
  }

  lemma {:induction false} FiringsFacts(s: GameDaySchedule, ops: seq<Op>, zone: int)
    requires s.lastFiredAt == 0
    ensures var fs, last := Firings(s, ops, zone), After(s, ops, zone);
      && last == s.(enabled := last.enabled, lastFiredAt := if fs == [] then 0 else fs[|fs| - 1])
      && (forall i :: 0 <= i < |fs| ==> InWindow(s, fs[i], zone) && TickAt(fs[i]) in ops)
      && (forall i :: 0 <= i < |fs| ==> fs[i] > REFIRE_GAP)
      && forall i, j :: 0 <= i < j < |fs| ==> fs[j] - fs[i] > REFIRE_GAP
  {
    if ops == [] {
    } else {
      FiringsFacts(s, ops[..|ops| - 1], zone);
    }
  }

  /** Whatever the ticks, even on a clock that jumps, and whatever the toggles, two firings never fall in the
      same minute. */
  lemma FiresAtMostOncePerWindow(s: GameDaySchedule, ops: seq<Op>, zone: int, i: nat, j: nat)
    requires s.lastFiredAt == 0 && i < j < |Firings(s, ops, zone)|
    ensures MinuteNumber(Firings(s, ops, zone)[i]) != MinuteNumber(Firings(s, ops, zone)[j])
  {
    FiringsFacts(s, ops, zone);
  }

  /** Ticks forward by at most a minute at a time, starting well after the zero time. */
  predicate Steady(ticks: seq<nat>) {
    && (forall i :: 0 <= i < |ticks| ==> ticks[i] > REFIRE_GAP)
    && forall i :: 0 < i < |ticks| ==> ticks[i - 1] < ticks[i] <= ticks[i - 1] + MINUTE
  }

  function Ticks(ticks: seq<nat>): seq<Op> {
    seq(|ticks|, i requires 0 <= i < |ticks| => TickAt(ticks[i]))
  }

  /** The run starts before the minute is over and is still going when it begins. */
  predicate Covers(ticks: seq<nat>, w: nat) {
    ticks != [] && MinuteNumber(ticks[0]) <= w && w <= MinuteNumber(ticks[|ticks| - 1])
  }

  lemma {:induction false} Increasing(ticks: seq<nat>, i: nat, j: nat)
    requires Steady(ticks) && i <= j < |ticks|
    ensures ticks[i] <= ticks[j]
    ensures i < j ==> ticks[i] < ticks[j]
    decreases j - i
  {
    if i == j {
    } else {
      Increasing(ticks, i, j - 1);
    }
  }

  /** With no gap longer than a minute, some tick falls in every covered minute; this finds the first. */
  lemma FirstTickIn(ticks: seq<nat>, w: nat) returns (k: nat)
    requires Steady(ticks) && Covers(ticks, w)
    ensures k < |ticks| && MinuteNumber(ticks[k]) == w && forall i :: 0 <= i < k ==> MinuteNumber(ticks[i]) < w
  {
    k := 0;
    while MinuteNumber(ticks[k]) < w
      invariant k < |ticks| && forall i :: 0 <= i < k ==> MinuteNumber(ticks[i]) < w
      invariant k > 0 ==> MinuteNumber(ticks[k]) <= w
      decreases |ticks| - k
    {
      k := k + 1;
    }
  }

  /** Exactly one of the moments falls in the minute. */
  ghost predicate OnlyOneIn(moments: seq<nat>, w: nat) {
    exists k :: 0 <= k < |moments| && MinuteNumber(moments[k]) == w && NoOther(moments, k, w)
  }

  ghost predicate NoOther(moments: seq<nat>, k: nat, w: nat) {
    forall j :: 0 <= j < |moments| && j != k ==> MinuteNumber(moments[j]) != w
  }

  /** A schedule that stays enabled fires exactly once in every weekly window a steady run covers. */
  lemma FiresExactlyOncePerCoveredWindow(s: GameDaySchedule, ticks: seq<nat>, zone: int, w: nat)
    requires ValidTime(s) && s.enabled && s.lastFiredAt == 0 && zone % MINUTE == 0
    requires Steady(ticks) && Covers(ticks, w) && w % WEEK_MINUTES == WindowOf(s, zone)
    ensures OnlyOneIn(Firings(s, Ticks(ticks), zone), w)
  {
    var i := FirstTickIn(ticks, w);
    DueAgain(s, ticks, zone, i, w);
    FiresOnlyThen(s, ticks, zone, i);
  }

  lemma FiresOnlyThen(s: GameDaySchedule, ticks: seq<nat>, zone: int, i: nat)
    requires s.lastFiredAt == 0 && i < |ticks| && Matches(After(s, Ticks(ticks)[..i], zone), ticks[i], zone)
    ensures OnlyOneIn(Firings(s, Ticks(ticks), zone), MinuteNumber(ticks[i]))
  {
    var ops := Ticks(ticks);
    assert ops[..i + 1][..i] == ops[..i] && ops[..i + 1][i] == TickAt(ticks[i]);
    var k := |Firings(s, ops[..i], zone)|;
    assert Firings(s, ops[..i + 1], zone) == Firings(s, ops[..i], zone) + [ticks[i]];
    FiringsPrefix(s, ops, zone, i + 1);
    var fs := Firings(s, ops, zone);
    assert fs[k] == ticks[i];
    forall j | 0 <= j < |fs| && j != k
      ensures MinuteNumber(fs[j]) != MinuteNumber(ticks[i])
    {
      if j < k {
        FiresAtMostOncePerWindow(s, ops, zone, j, k);
      } else {
        FiresAtMostOncePerWindow(s, ops, zone, k, j);
      }
    }
    assert NoOther(fs, k, MinuteNumber(ticks[i]));
  }

  lemma {:induction false} StaysEnabled(s: GameDaySchedule, ops: seq<Op>, zone: int)
    requires s.enabled && forall op :: op in ops ==> op.TickAt?
    ensures After(s, ops, zone).enabled
  {
    if ops == [] {
    } else {
      StaysEnabled(s, ops[..|ops| - 1], zone);
    }
  }

  /** At the first tick of a window the last firing, if any, was in an earlier week. */
  lemma DueAgain(s: GameDaySchedule, ticks: seq<nat>, zone: int, i: nat, w: nat)
    requires ValidTime(s) && s.enabled && s.lastFiredAt == 0 && Steady(ticks) && i < |ticks|
    requires zone % MINUTE == 0
    requires MinuteNumber(ticks[i]) == w && w % WEEK_MINUTES == WindowOf(s, zone)
    requires forall k :: 0 <= k < i ==> MinuteNumber(ticks[k]) < w
    ensures Matches(After(s, Ticks(ticks)[..i], zone), ticks[i], zone)
  {
    var before := Ticks(ticks)[..i];
    FiringsFacts(s, before, zone);
    StaysEnabled(s, before, zone);
    WindowIsAMinute(s, ticks[i], zone);
    var fs := Firings(s, before, zone);
    if fs != [] {
      var f := fs[|fs| - 1];
      assert TickAt(f) in before;
      WindowIsAMinute(s, f, zone);
      WeeksApart(f / MINUTE, w);
      MinutesApart(f, ticks[i]);
    }
  }

  lemma WeeksApart(a: nat, b: nat)
    requires a < b && a % WEEK_MINUTES == b % WEEK_MINUTES
    ensures a + WEEK_MINUTES <= b
  {
  }

  lemma MinutesApart(a: nat, b: nat)
    requires a / MINUTE + WEEK_MINUTES <= b / MINUTE
    ensures b - a > REFIRE_GAP
  {
  }

  lemma {:induction false} FiringsPrefix(s: GameDaySchedule, ops: seq<Op>, zone: int, n: nat)
    requires n <= |ops|
    ensures Firings(s, ops[..n], zone) <= Firings(s, ops, zone)
    decreases |ops| - n
  {
    if n < |ops| {
      FiringsPrefix(s, ops, zone, n + 1);
      assert ops[..n + 1][..n] == ops[..n];
    } else {
      assert ops[..n] == ops;
    }
  }

  // --- ids

  ghost predicate Numbered(id: string, upTo: nat) {
    exists n: nat :: 1 <= n <= upTo && id == IdOf(n)
  }

  function IdOf(n: nat): string {
    "gameday-" + Itoa(n)
  }

  lemma IdsDiffer(n: nat)
    ensures forall k: nat :: k < n ==> IdOf(k) != IdOf(n)
  {
    forall k: nat | k < n
      ensures IdOf(k) != IdOf(n)
    {
      if IdOf(k) == IdOf(n) {
        assert IdOf(k)[8..] == Itoa(k) && IdOf(n)[8..] == Itoa(n);
        ItoaInjective(k, n);
      }
    }
  }

  // --- the scheduler object

  class Scheduler {
    const zone: int
    var schedules: map<string, GameDaySchedule>
    var seqNo: nat

    /** Ids are numbered in order of creation, and no number is reused. */
    ghost predicate Valid()
      reads this
    {
      && (forall id :: id in schedules ==> Numbered(id, seqNo))
      && forall id :: id in schedules ==> schedules[id].id == id && schedules[id].hour < 24 && schedules[id].minute < 60
    }

    constructor (zone: int)
      ensures Valid() && schedules == map[] && this.zone == zone
    {
      this.zone := zone;
      schedules, seqNo := map[], 0;
    }

    method Add(name: string, weekday: int, hour: int, minute: int) returns (id: Option<string>)
      requires Valid()
      modifies this
      ensures Valid()
      ensures id.None? <==> !(0 <= hour <= 23 && 0 <= minute <= 59)
      ensures id.None? ==> schedules == old(schedules)
      ensures id.None? ==> seqNo == old(seqNo)
      ensures id.Some? ==> id == Some("gameday-" + Itoa(old(seqNo) + 1)) && seqNo == old(seqNo) + 1
      ensures id.Some? ==> id.value !in old(schedules) && 0 <= hour && 0 <= minute
      ensures id.Some? ==>
        schedules == old(schedules)[id.value := GameDaySchedule(id.value, name, weekday, hour, minute, true, 0)]
    {
      if hour < 0 || hour > 23 || minute < 0 || minute > 59 {
        return None;
      }
      seqNo := seqNo + 1;
      var newId := IdOf(seqNo);
      IdsDiffer(seqNo);
      schedules := schedules[newId := GameDaySchedule(newId, name, weekday, hour, minute, true, 0)];
      return Some(newId);
    }

    method Remove(id: string) returns (existed: bool)
      requires Valid()
      modifies this
      ensures Valid() && existed == (id in old(schedules)) && schedules == old(schedules) - {id}
      ensures seqNo == old(seqNo)
    {
      existed := id in schedules;
      schedules := schedules - {id};
    }

    method SetEnabled(id: string, enabled: bool) returns (existed: bool)
      requires Valid()
      modifies this
      ensures Valid() && existed == (id in old(schedules)) && seqNo == old(seqNo)
      ensures schedules.Keys == old(schedules).Keys
      ensures forall k :: k in schedules ==>
        schedules[k] == if k == id then Stepped(old(schedules)[k], SetTo(enabled), zone) else old(schedules)[k]
    {
      existed := id in schedules;
      if existed {
        schedules := schedules[id := schedules[id].(enabled := enabled)];
      }
    }

    /** Every schedule takes the tick on its own; exactly those that match are due. */
    method CheckAndFire(now: nat) returns (due: set<string>)
      requires Valid()
      modifies this
      ensures Valid() && schedules.Keys == old(schedules).Keys && seqNo == old(seqNo)
      ensures forall id :: id in schedules ==> schedules[id] == Stepped(old(schedules)[id], TickAt(now), zone)
      ensures forall id :: id in due <==>
        && id in schedules && old(schedules)[id].enabled && InWindow(old(schedules)[id], now, zone)
        && now - old(schedules)[id].lastFiredAt > 90_000_000_000
    {
      due := {};
      var left := schedules.Keys;
      while left != {}
        invariant left <= schedules.Keys == old(schedules).Keys && seqNo == old(seqNo)
        invariant forall id :: id in schedules ==> Numbered(id, seqNo)
        invariant forall id :: id in schedules ==>
          schedules[id] == if id in left then old(schedules)[id] else Stepped(old(schedules)[id], TickAt(now), zone)
        invariant forall id :: id in due <==> id in schedules && id !in left && Matches(old(schedules)[id], now, zone)
        decreases left
      {
        var id :| id in left;
        if Matches(schedules[id], now, zone) {
          schedules := schedules[id := schedules[id].(lastFiredAt := now)];
          due := due + {id};
        }
        left := left - {id};
      }
    }
  }
}
