/** The ring of time slices behind the circuit breaker (pkg/loadengine/sliding_window.go), against a plain log
    of everything ever recorded. Times are whole nanoseconds since Go's zero time. */
module SlidingWindow {
  import opened Counting
  import opened Histogram

  const SECOND: nat := 1_000_000_000
  /** The Unix epoch on this clock. */
  const UNIX: nat := 62135596800 * SECOND

  datatype Event = Event(at: nat, isError: bool, micros: nat)

  datatype WindowBucket = WindowBucket(timestamp: nat, requests: nat, errors: nat, counts: seq<nat>)

  datatype WindowStats = WindowStats(requests: nat, errors: nat, errorRate: real, p50: nat, p90: nat, p99: nat)

  // --- slices and slots

  /** Rounding down to a multiple of the width. */
  function Truncate(t: nat, width: nat): nat
    requires width > 0
  {
    t / width * width
  }

  /** The ring position of a truncated time. */
  function Slot(ts: nat, width: nat, slots: nat): nat
    requires width > 0 && slots > 0
  {
    if ts < UNIX then 0 else (ts - UNIX) / width % slots
  }

  datatype Shape = Shape(width: nat, length: nat, slots: nat) {
    ghost predicate Valid() {
      width > 0 && slots > 0 && slots * width <= length < (slots + 1) * width
    }
  }

  ghost function Ts(c: Shape, e: Event): nat
    requires c.Valid()
  {
    Truncate(e.at, c.width)
  }

  ghost function SlotOf(c: Shape, e: Event): (j: nat)
    requires c.Valid()
    ensures j < c.slots
  {
    Slot(Ts(c, e), c.width, c.slots)
  }

  /** Clock readings never run backwards, and are at least one slice past the Unix epoch. */
  ghost predicate Ordered(c: Shape, log: seq<Event>)
    requires c.Valid()
  {
    && (forall i :: 0 <= i < |log| ==> UNIX <= Ts(c, log[i]))
    && forall i, j :: 0 <= i <= j < |log| ==> log[i].at <= log[j].at
  }

  // --- the naive reading: filter the log, then summarise

  /** The recorded events whose slice starts after the cutoff. */
  ghost function Active(c: Shape, log: seq<Event>, cutoff: int): seq<Event>
    requires c.Valid()
  {
    if log == [] then [] else
      var front, e := log[..|log| - 1], log[|log| - 1];
      Active(c, front, cutoff) + (if Ts(c, e) > cutoff then [e] else [])
  }

  ghost function IsErr(): Event -> nat {
    (e: Event) => if e.isError then 1 else 0
  }

  ghost function Latencies(events: seq<Event>): seq<nat> {
    seq(|events|, i requires 0 <= i < |events| => events[i].micros)
  }

  function Rate(errors: nat, requests: nat): real
    requires requests > 0
  {
    errors as real / requests as real
  }

  /** What a plain log of events amounts to. */
  ghost predicate Summarises(s: WindowStats, events: seq<Event>) {
    && s.requests == |events|
    && s.errors == Tally(events, IsErr())
    && (if events == [] then s.errorRate == 0.0 && s.p50 == s.p90 == s.p99 == 0 else
          && s.errorRate == s.errors as real / |events| as real
          && s.p50 == PercentileOf(Latencies(events), 50.0)
          && s.p90 == PercentileOf(Latencies(events), 90.0)
          && s.p99 == PercentileOf(Latencies(events), 99.0))
  }

  /** A slice starts at the last multiple of its width. */
  lemma SliceOf(t: nat, width: nat) returns (k: nat)
    requires width > 0
    ensures Truncate(t, width) == k * width && k * width <= t < (k + 1) * width
  {
    k := t / width;
    TruncateSplits(t, width);
  }

  lemma TruncateSplits(t: nat, width: nat)
    requires width > 0
    ensures t == t / width * width + t % width && (t / width + 1) * width == t / width * width + width
  {
  }

  // --- what a ring of buckets holds

  ghost function One(): Event -> nat {
    e => 1
  }

  ghost function InHist(b: nat): Event -> nat {
    (e: Event) => if BucketIndex(e.micros) == b then 1 else 0
  }

  /** A measure restricted to one slot and one slice. */
  ghost function At(c: Shape, j: nat, ts: nat, f: Event -> nat): Event -> nat
    requires c.Valid()
  {
    (e: Event) => if SlotOf(c, e) == j && Ts(c, e) == ts then f(e) else 0
  }

  ghost predicate BucketHolds(c: Shape, log: seq<Event>, j: nat, b: WindowBucket)
    requires c.Valid()
  {
    && |b.counts| == TOTAL_BUCKETS
    && b.requests == Tally(log, At(c, j, b.timestamp, One()))
    && b.errors == Tally(log, At(c, j, b.timestamp, IsErr()))
    && forall h :: 0 <= h < TOTAL_BUCKETS ==> b.counts[h] == Tally(log, At(c, j, b.timestamp, InHist(h)))
  }

  /** The bucket's slice is the latest one recorded in its slot. */
  ghost predicate BucketLatest(c: Shape, log: seq<Event>, j: nat, b: WindowBucket)
    requires c.Valid()
  {
    && (forall i :: 0 <= i < |log| && SlotOf(c, log[i]) == j ==> Ts(c, log[i]) <= b.timestamp)
    && (b.timestamp == 0 || exists i :: 0 <= i < |log| && SlotOf(c, log[i]) == j && Ts(c, log[i]) == b.timestamp)
  }

  ghost predicate RingHolds(c: Shape, log: seq<Event>, ring: seq<WindowBucket>)
    requires c.Valid()
  {
    |ring| == c.slots &&
    forall j :: 0 <= j < c.slots ==> BucketHolds(c, log, j, ring[j]) && BucketLatest(c, log, j, ring[j])
  }

  /** The events a ring still accounts for after the cutoff: those in the slice their slot holds. */
  ghost function Held(c: Shape, log: seq<Event>, ring: seq<WindowBucket>, cutoff: int): seq<Event>
    requires c.Valid() && |ring| == c.slots
  {
    if log == [] then [] else
      var front, e := log[..|log| - 1], log[|log| - 1];
      Held(c, front, ring, cutoff) +
      (if Ts(c, e) > cutoff && ring[SlotOf(c, e)].timestamp == Ts(c, e) then [e] else [])
  }

  // --- recording

  function Emptied(ts: nat): WindowBucket {
    WindowBucket(ts, 0, 0, seq(TOTAL_BUCKETS, _ => 0))
  }

  function Added(b: WindowBucket, isError: bool, micros: nat): WindowBucket
    requires |b.counts| == TOTAL_BUCKETS
  {
    var h := BucketIndex(micros);
    WindowBucket(b.timestamp, b.requests + 1, if isError then b.errors + 1 else b.errors,
                 b.counts[h := b.counts[h] + 1])
  }

  lemma {:induction false} NothingInSlice(c: Shape, log: seq<Event>, j: nat, ts: nat, f: Event -> nat)
    requires c.Valid()
    requires forall i :: 0 <= i < |log| && SlotOf(c, log[i]) == j ==> Ts(c, log[i]) < ts
    ensures Tally(log, At(c, j, ts, f)) == 0
  {
    TallyZero(log, At(c, j, ts, f));
  }

  /** A slot whose latest slice has passed holds nothing of the new slice yet. */
  lemma ResetIsFaithful(c: Shape, log: seq<Event>, j: nat, b: WindowBucket, e: Event)
    requires c.Valid() && Ordered(c, log + [e]) && j == SlotOf(c, e)
    requires BucketLatest(c, log, j, b) && b.timestamp != Ts(c, e)
    ensures BucketHolds(c, log, j, Emptied(Ts(c, e)))
  {
    forall i | 0 <= i < |log| && SlotOf(c, log[i]) == j
      ensures Ts(c, log[i]) < Ts(c, e)
    {
      LaterSlice(c, log, e, i);
      if b.timestamp != 0 {
        var k :| 0 <= k < |log| && SlotOf(c, log[k]) == j && Ts(c, log[k]) == b.timestamp;
        LaterSlice(c, log, e, k);
      }
    }
    NothingInSlice(c, log, j, Ts(c, e), One());
    NothingInSlice(c, log, j, Ts(c, e), IsErr());
    forall h | 0 <= h < TOTAL_BUCKETS
      ensures Emptied(Ts(c, e)).counts[h] == Tally(log, At(c, j, Ts(c, e), InHist(h)))
    {
      NothingInSlice(c, log, j, Ts(c, e), InHist(h));
    }
  }

  lemma LaterSlice(c: Shape, log: seq<Event>, e: Event, i: nat)
    requires c.Valid() && Ordered(c, log + [e]) && i < |log|
    ensures Ts(c, log[i]) <= Ts(c, e) && 0 < Ts(c, log[i])
  {
    assert (log + [e])[i] == log[i] && (log + [e])[|log|] == e;
    TruncateMonotone(log[i].at, e.at, c.width);
  }

  lemma TruncateMonotone(a: nat, b: nat, width: nat)
    requires width > 0 && a <= b
    ensures Truncate(a, width) <= Truncate(b, width)
  {
    DivideMonotone(a, b, width);
    TimesMonotone(a / width, b / width, width);
  }

  lemma DivideMonotone(a: nat, b: nat, w: nat)
    requires w > 0 && a <= b
    ensures a / w <= b / w
  {
    var p, q := a / w, b / w;
    assert p * w <= a && b < q * w + w;
    if q < p { TimesMonotone(q + 1, p, w); }
  }

  lemma TimesMonotone(a: nat, b: nat, w: nat)
    requires a <= b
    ensures a * w <= b * w
  {
  }

  /** A bucket of another slot is unaffected. */
  lemma OtherSlotKept(c: Shape, log: seq<Event>, j: nat, b: WindowBucket, e: Event)
    requires c.Valid() && BucketHolds(c, log, j, b) && BucketLatest(c, log, j, b) && j != SlotOf(c, e)
    ensures BucketHolds(c, log + [e], j, b) && BucketLatest(c, log + [e], j, b)
  {
  }

  lemma NewestIsLatest(c: Shape, log: seq<Event>, j: nat, b: WindowBucket, e: Event)
    requires c.Valid() && Ordered(c, log + [e]) && j == SlotOf(c, e) && b.timestamp == Ts(c, e)
    ensures BucketLatest(c, log + [e], j, b)
  {
    forall i | 0 <= i < |log + [e]| && SlotOf(c, (log + [e])[i]) == j
      ensures Ts(c, (log + [e])[i]) <= b.timestamp
    {
      if i < |log| { LaterSlice(c, log, e, i); }
    }
    assert (log + [e])[|log|] == e;
  }

  /** One recording, in whatever slot it falls. */
  lemma RecordedRing(c: Shape, log: seq<Event>, ring: seq<WindowBucket>, e: Event)
    requires c.Valid() && Ordered(c, log + [e]) && RingHolds(c, log, ring)
    ensures var j := SlotOf(c, e);
      var b := if ring[j].timestamp == Ts(c, e) then ring[j] else Emptied(Ts(c, e));
      RingHolds(c, log + [e], ring[j := Added(b, e.isError, e.micros)])
  {
    var j := SlotOf(c, e);
    var b := if ring[j].timestamp == Ts(c, e) then ring[j] else Emptied(Ts(c, e));
    var after := ring[j := Added(b, e.isError, e.micros)];
    if ring[j].timestamp != Ts(c, e) {
      ResetIsFaithful(c, log, j, ring[j], e);
    }
    NewestIsLatest(c, log, j, after[j], e);
    forall k | 0 <= k < c.slots && k != j
      ensures BucketHolds(c, log + [e], k, after[k]) && BucketLatest(c, log + [e], k, after[k])
    {
      OtherSlotKept(c, log, k, ring[k], e);
    }
  }

  // --- reading

  /** A measure restricted to the held events of the first k slots. */
  ghost function Kept(c: Shape, ring: seq<WindowBucket>, cutoff: int, k: nat, f: Event -> nat): Event -> nat
    requires c.Valid() && |ring| == c.slots
  {
    (e: Event) => if SlotOf(c, e) < k && ring[SlotOf(c, e)].timestamp == Ts(c, e) && Ts(c, e) > cutoff then f(e) else 0
  }

  lemma OneSlotFurther(c: Shape, log: seq<Event>, ring: seq<WindowBucket>, cutoff: int, k: nat, f: Event -> nat)
    requires c.Valid() && |ring| == c.slots && k < c.slots
    ensures Tally(log, Kept(c, ring, cutoff, k + 1, f)) == Tally(log, Kept(c, ring, cutoff, k, f)) +
      if ring[k].timestamp > cutoff then Tally(log, At(c, k, ring[k].timestamp, f)) else 0
  {
  }

  lemma {:induction false} HeldTally(c: Shape, log: seq<Event>, ring: seq<WindowBucket>, cutoff: int, f: Event -> nat)
    requires c.Valid() && |ring| == c.slots
    ensures Tally(Held(c, log, ring, cutoff), f) == Tally(log, Kept(c, ring, cutoff, c.slots, f))
  {
    if log == [] {
    } else {
      var front, e := log[..|log| - 1], log[|log| - 1];
      HeldTally(c, front, ring, cutoff, f);
      TallySnoc(Held(c, front, ring, cutoff), e, f);
      assert Held(c, front, ring, cutoff) + [] == Held(c, front, ring, cutoff);
    }
  }

  datatype Totals = Totals(requests: nat, errors: nat, merged: seq<nat>)

  /** The logged events held by the first k slots: how many, how many errors, how many in each histogram bucket. */
  ghost function HeldBy(c: Shape, log: seq<Event>, ring: seq<WindowBucket>, cutoff: int, k: nat): Totals
    requires c.Valid() && |ring| == c.slots
  {
    Totals(Tally(log, Kept(c, ring, cutoff, k, One())),
           Tally(log, Kept(c, ring, cutoff, k, IsErr())),
           seq(TOTAL_BUCKETS, h requires 0 <= h < TOTAL_BUCKETS => Tally(log, Kept(c, ring, cutoff, k, InHist(h)))))
  }

  ghost function Plus(t: Totals, b: WindowBucket): Totals
    requires |t.merged| == |b.counts|
  {
    Totals(t.requests + b.requests, t.errors + b.errors, Merged(t.merged, b.counts))
  }

  ghost function Merged(a: seq<nat>, b: seq<nat>): seq<nat>
    requires |a| == |b|
  {
    seq(|a|, i requires 0 <= i < |a| => a[i] + b[i])
  }

  ghost predicate Shaped(ring: seq<WindowBucket>) {
    forall k :: 0 <= k < |ring| ==> |ring[k].counts| == TOTAL_BUCKETS
  }

  /** The figures of the first k slots added up: an active slot adds its own, any other nothing. */
  ghost function ActiveTotals(ring: seq<WindowBucket>, cutoff: int, k: nat): (t: Totals)
    requires Shaped(ring) && k <= |ring|
    ensures |t.merged| == TOTAL_BUCKETS
  {
    if k == 0 then Totals(0, 0, seq(TOTAL_BUCKETS, _ => 0))
    else
      var t := ActiveTotals(ring, cutoff, k - 1);
      if ring[k - 1].timestamp > cutoff then Plus(t, ring[k - 1]) else t
  }

  /** They count the held events. */
  lemma {:induction false} ActiveTotalsAreHeld(c: Shape, log: seq<Event>, ring: seq<WindowBucket>, cutoff: int, k: nat)
    requires c.Valid() && RingHolds(c, log, ring) && k <= c.slots
    ensures Shaped(ring) && ActiveTotals(ring, cutoff, k) == HeldBy(c, log, ring, cutoff, k)
    decreases k, log
  {
    assert forall j :: 0 <= j < |ring| ==> BucketHolds(c, log, j, ring[j]);
    if k == 0 {
      NothingAddedYet(c, log, ring, cutoff);
    } else {
      ActiveTotalsAreHeld(c, log, ring, cutoff, k - 1);
      SlotAddsUp(c, log, ring, cutoff, k - 1);
    }
  }

  lemma SlotAddsUp(c: Shape, log: seq<Event>, ring: seq<WindowBucket>, cutoff: int, k: nat)
    requires c.Valid() && RingHolds(c, log, ring) && k < c.slots
    ensures |ring[k].counts| == TOTAL_BUCKETS
    ensures var sofar := HeldBy(c, log, ring, cutoff, k);
      HeldBy(c, log, ring, cutoff, k + 1) == if ring[k].timestamp > cutoff then Plus(sofar, ring[k]) else sofar
  {
    var sofar, next := HeldBy(c, log, ring, cutoff, k), HeldBy(c, log, ring, cutoff, k + 1);
    OneSlotFurther(c, log, ring, cutoff, k, One());
    OneSlotFurther(c, log, ring, cutoff, k, IsErr());
    assert BucketHolds(c, log, k, ring[k]);
    forall h | 0 <= h < TOTAL_BUCKETS
      ensures next.merged[h] == sofar.merged[h] + if ring[k].timestamp > cutoff then ring[k].counts[h] else 0
    {
      OneSlotFurther(c, log, ring, cutoff, k, InHist(h));
    }
  }

  lemma NothingAddedYet(c: Shape, log: seq<Event>, ring: seq<WindowBucket>, cutoff: int)
    requires c.Valid() && |ring| == c.slots
    ensures HeldBy(c, log, ring, cutoff, 0) == Totals(0, 0, seq(TOTAL_BUCKETS, _ => 0))
  {
    TallyZero(log, Kept(c, ring, cutoff, 0, One()));
    TallyZero(log, Kept(c, ring, cutoff, 0, IsErr()));
    forall h | 0 <= h < TOTAL_BUCKETS
      ensures Tally(log, Kept(c, ring, cutoff, 0, InHist(h))) == 0
    {
      TallyZero(log, Kept(c, ring, cutoff, 0, InHist(h)));
    }
  }

  ghost predicate AreTotals(t: Totals, events: seq<Event>) {
    && t.requests == |events| == SumN(t.merged) && t.errors == Tally(events, IsErr())
    && CountsOf(t.merged, Latencies(events))
  }

  /** The totals over all slots, read as the held events. */
  lemma TotalsAreHeld(c: Shape, log: seq<Event>, ring: seq<WindowBucket>, cutoff: int)
    requires c.Valid() && |ring| == c.slots
    ensures AreTotals(HeldBy(c, log, ring, cutoff, c.slots), Held(c, log, ring, cutoff))
  {
    var held, t := Held(c, log, ring, cutoff), HeldBy(c, log, ring, cutoff, c.slots);
    HeldTally(c, log, ring, cutoff, One());
    HeldTally(c, log, ring, cutoff, IsErr());
    TallyOnes(held, One());
    forall h | 0 <= h < TOTAL_BUCKETS
      ensures t.merged[h] == Tally(Latencies(held), InBucket(h))
    {
      HeldTally(c, log, ring, cutoff, InHist(h));
      TallyPointwise(held, InHist(h), Latencies(held), InBucket(h));
    }
    MassIsCount(Latencies(held), t.merged);
  }

  // --- exactness

  lemma SlotsRepeat(a: nat, b: nat, width: nat, slots: nat)
    requires width > 0 && slots > 0 && UNIX <= a * width && a < b
    requires Slot(a * width, width, slots) == Slot(b * width, width, slots)
    ensures (a + slots) * width <= b * width
  {
    TimesMonotone(a, b, width);
    var x, m := a * width - UNIX, b - a;
    TimesAdd(a, m, width);
    DivideShift(x, m, width);
    SameRemainder(x / width, m, slots);
    TimesMonotone(a + slots, b, width);
  }

  lemma DivideShift(x: nat, m: nat, w: nat)
    requires w > 0
    ensures (x + m * w) / w == x / w + m
  {
    var q, r := x / w, x % w;
    assert x + m * w == (q + m) * w + r;
    QuotientUnique(x + m * w, q + m, r, w);
  }

  lemma QuotientUnique(x: nat, q: nat, r: nat, w: nat)
    requires w > 0 && r < w && x == q * w + r
    ensures x / w == q
  {
    var p := x / w;
    assert p * w <= x < p * w + w;
    if p < q { TimesMonotone(p + 1, q, w); }
    if q < p { TimesMonotone(q + 1, p, w); }
  }

  lemma SameRemainder(q: nat, m: nat, n: nat)
    requires n > 0 && m > 0 && (q + m) % n == q % n
    ensures n <= m
  {
    if m < n {
      var k, r := q / n, q % n;
      assert q == k * n + r;
      if r + m < n {
        QuotientUnique(q + m, k, r + m, n);
      } else {
        assert q + m == (k + 1) * n + (r + m - n);
        QuotientUnique(q + m, k + 1, r + m - n, n);
      }
    }
  }

  /** With nothing recorded after `now` and a width that divides the length, no active event has been
      overwritten. */
  lemma ActiveIsHeld(c: Shape, log: seq<Event>, ring: seq<WindowBucket>, now: nat, i: nat)
    requires c.Valid() && c.slots * c.width == c.length
    requires Ordered(c, log) && RingHolds(c, log, ring) && i < |log|
    requires forall k :: 0 <= k < |log| ==> log[k].at <= now
    requires Ts(c, log[i]) > now - c.length
    ensures ring[SlotOf(c, log[i])].timestamp == Ts(c, log[i])
  {
    var j := SlotOf(c, log[i]);
    assert BucketLatest(c, log, j, ring[j]);
    var k :| 0 <= k < |log| && SlotOf(c, log[k]) == j && Ts(c, log[k]) == ring[j].timestamp;
    SameSlice(c, log[i], log[k], now);
  }

  lemma SameSlice(c: Shape, e: Event, f: Event, now: nat)
    requires c.Valid() && c.slots * c.width == c.length
    requires UNIX <= Ts(c, e) <= Ts(c, f) && SlotOf(c, e) == SlotOf(c, f)
    requires f.at <= now && now - c.length < Ts(c, e)
    ensures Ts(c, e) == Ts(c, f)
  {
    TruncateBelow(f.at, c.width);
    SameMultiple(e.at / c.width, f.at / c.width, c.width, c.slots, c.length, now);
  }

  lemma TruncateBelow(t: nat, w: nat)
    requires w > 0
    ensures Truncate(t, w) <= t
  {
  }

  lemma SameMultiple(a: nat, b: nat, width: nat, slots: nat, length: nat, now: nat)
    requires width > 0 && slots > 0 && UNIX <= a * width && slots * width == length
    requires Slot(a * width, width, slots) == Slot(b * width, width, slots)
    requires now - length < a * width <= b * width <= now
    ensures a * width == b * width
  {
    TimesAdd(a, slots, width);
    if a < b {
      SlotsRepeat(a, b, width, slots);
    } else {
      TimesMonotone(b, a, width);
    }
  }

  lemma TimesAdd(a: nat, b: nat, w: nat)
    ensures (a + b) * w == a * w + b * w
  {
  }

  lemma {:induction false} HeldEqualsActive(c: Shape, log: seq<Event>, ring: seq<WindowBucket>, cutoff: int)
    requires c.Valid() && |ring| == c.slots
    requires forall i :: 0 <= i < |log| && Ts(c, log[i]) > cutoff ==> ring[SlotOf(c, log[i])].timestamp == Ts(c, log[i])
    ensures Held(c, log, ring, cutoff) == Active(c, log, cutoff)
  {
    if log == [] {
    } else {
      var front, e := log[..|log| - 1], log[|log| - 1];
      forall i | 0 <= i < |front| && Ts(c, front[i]) > cutoff
        ensures ring[SlotOf(c, front[i])].timestamp == Ts(c, front[i])
      {
        assert front[i] == log[i];
      }
      HeldEqualsActive(c, front, ring, cutoff);
      assert log[|log| - 1] == e;
    }
  }

  /** When the bucket width divides the window length, the ring holds exactly the events a log of everything
      ever recorded has after the cutoff, in the same order; so every figure read off it is exact. */
  lemma RingIsExact(c: Shape, log: seq<Event>, ring: seq<WindowBucket>, now: nat)
    requires c.Valid() && c.slots * c.width == c.length
    requires Ordered(c, log) && RingHolds(c, log, ring)
    requires forall k :: 0 <= k < |log| ==> log[k].at <= now
    ensures Held(c, log, ring, now - c.length) == Active(c, log, now - c.length)
  {
    forall i | 0 <= i < |log| && Ts(c, log[i]) > now - c.length
      ensures ring[SlotOf(c, log[i])].timestamp == Ts(c, log[i])
    {
      ActiveIsHeld(c, log, ring, now, i);
    }
    HeldEqualsActive(c, log, ring, now - c.length);
  }

  lemma {:induction false} HeldIsPartOfActive(c: Shape, log: seq<Event>, ring: seq<WindowBucket>, cutoff: int)
    requires c.Valid() && |ring| == c.slots
    ensures multiset(Held(c, log, ring, cutoff)) <= multiset(Active(c, log, cutoff))
  {
    if log == [] {
    } else {
      HeldIsPartOfActive(c, log[..|log| - 1], ring, cutoff);
    }
  }

  lemma {:induction false} HeldTallyAtMost(c: Shape, log: seq<Event>, ring: seq<WindowBucket>, cutoff: int,
                                           f: Event -> nat)
    requires c.Valid() && |ring| == c.slots
    ensures Tally(Held(c, log, ring, cutoff), f) <= Tally(Active(c, log, cutoff), f)
  {
    if log == [] {
    } else {
      var front, e := log[..|log| - 1], log[|log| - 1];
      HeldTallyAtMost(c, front, ring, cutoff, f);
      TallyMaybe(Held(c, front, ring, cutoff), e, Ts(c, e) > cutoff && ring[SlotOf(c, e)].timestamp == Ts(c, e), f);
      TallyMaybe(Active(c, front, cutoff), e, Ts(c, e) > cutoff, f);
    }
  }

  lemma TallyMaybe(events: seq<Event>, e: Event, more: bool, f: Event -> nat)
    ensures Tally(events + (if more then [e] else []), f) == Tally(events, f) + if more then f(e) else 0
  {
    TallySnoc(events, e, f);
    assert events + [] == events;
  }

  lemma HeldAtMostActive(c: Shape, log: seq<Event>, ring: seq<WindowBucket>, cutoff: int)
    requires c.Valid() && |ring| == c.slots
    ensures |Held(c, log, ring, cutoff)| <= |Active(c, log, cutoff)|
  {
    HeldTallyAtMost(c, log, ring, cutoff, One());
    TallyOnes(Held(c, log, ring, cutoff), One());
    TallyOnes(Active(c, log, cutoff), One());
  }

  /** Figures that claim no more than a log of events bears out: requests, errors and every latency bucket. */
  ghost predicate AtMostLogged(t: Totals, events: seq<Event>) {
    && t.requests <= |events| && t.errors <= Tally(events, IsErr())
    && |t.merged| == TOTAL_BUCKETS
    && forall h :: 0 <= h < TOTAL_BUCKETS ==> t.merged[h] <= Tally(events, InHist(h))
  }

  /** Whatever the width, the ring never counts an event twice or one outside the window: its active slots
      together never claim more than the log has after the cutoff. */
  lemma RingNeverOverCounts(c: Shape, log: seq<Event>, ring: seq<WindowBucket>, cutoff: int)
    requires c.Valid() && RingHolds(c, log, ring)
    ensures Shaped(ring) && AtMostLogged(ActiveTotals(ring, cutoff, |ring|), Active(c, log, cutoff))
    ensures multiset(Held(c, log, ring, cutoff)) <= multiset(Active(c, log, cutoff))
  {
    ActiveTotalsAreHeld(c, log, ring, cutoff, c.slots);
    HeldIsPartOfActive(c, log, ring, cutoff);
    var held, active := Held(c, log, ring, cutoff), Active(c, log, cutoff);
    HeldTally(c, log, ring, cutoff, One());
    HeldTally(c, log, ring, cutoff, IsErr());
    HeldTallyAtMost(c, log, ring, cutoff, One());
    HeldTallyAtMost(c, log, ring, cutoff, IsErr());
    TallyOnes(active, One());
    forall h | 0 <= h < TOTAL_BUCKETS
      ensures Tally(log, Kept(c, ring, cutoff, c.slots, InHist(h))) <= Tally(active, InHist(h))
    {
      HeldTally(c, log, ring, cutoff, InHist(h));
      HeldTallyAtMost(c, log, ring, cutoff, InHist(h));
    }
  }

  /** When the width does not divide the length, two recordings one full ring apart suffice: both are inside
      the window, and the second has overwritten the first. */
  lemma RingLosesEvents(c: Shape, ring: seq<WindowBucket>, q: nat)
    requires c.Valid() && c.slots * c.width != c.length && UNIX <= q * c.width
    requires RingHolds(c, TwoApart(c, q), ring)
    ensures Ordered(c, TwoApart(c, q))
    ensures var now := (q + c.slots) * c.width;
      && Active(c, TwoApart(c, q), now - c.length) == TwoApart(c, q)
      && Held(c, TwoApart(c, q), ring, now - c.length) == [TwoApart(c, q)[1]]
  {
    var log := TwoApart(c, q);
    var first, second := log[0], log[1];
    var now := (q + c.slots) * c.width;
    TwoApartShareSlot(c, q);
    var j := SlotOf(c, first);
    assert BucketLatest(c, log, j, ring[j]);
    assert ring[j].timestamp == now;
    var cutoff := now - c.length;
    assert log[..1] == [first] && [first][..0] == [];
    assert log == [first] + [second];
    assert Active(c, [first], cutoff) == [first];
    assert Held(c, [first], ring, cutoff) == [];
  }

  lemma TwoApartShareSlot(c: Shape, q: nat)
    requires c.Valid() && c.slots * c.width != c.length && UNIX <= q * c.width
    ensures var log, now := TwoApart(c, q), (q + c.slots) * c.width;
      && Ts(c, log[0]) == q * c.width && Ts(c, log[1]) == now
      && now - c.length < q * c.width < now
      && SlotOf(c, log[0]) == SlotOf(c, log[1])
      && Ordered(c, log)
  {
    TruncateMultiple(q, c.width);
    TruncateMultiple(q + c.slots, c.width);
    FullTurn(q, c.width, c.slots);
  }

  lemma TruncateMultiple(q: nat, w: nat)
    requires w > 0
    ensures Truncate(q * w, w) == q * w
  {
    QuotientUnique(q * w, q, 0, w);
  }

  /** One full turn of the ring later a slice falls in the same slot. */
  lemma FullTurn(q: nat, w: nat, slots: nat)
    requires w > 0 && slots > 0 && UNIX <= q * w
    ensures Slot((q + slots) * w, w, slots) == Slot(q * w, w, slots)
    ensures (q + slots) * w == q * w + slots * w > q * w
  {
    TimesAdd(q, slots, w);
    TimesMonotone(1, slots, w);
    var x := q * w - UNIX;
    DivideShift(x, slots, w);
    AddMultiple(x / w, slots);
  }

  lemma AddMultiple(q: nat, n: nat)
    requires n > 0
    ensures (q + n) % n == q % n
  {
    DivideShift(q, 1, n);
  }

  ghost function TwoApart(c: Shape, q: nat): seq<Event> {
    [Event(q * c.width, false, 0), Event((q + c.slots) * c.width, false, 0)]
  }

  /** A ring that has recorded this log, read no earlier than its last recording. */
  ghost predicate Readable(c: Shape, log: seq<Event>, ring: seq<WindowBucket>, now: nat)
    requires c.Valid()
  {
    Ordered(c, log) && RingHolds(c, log, ring) && forall k :: 0 <= k < |log| ==> log[k].at <= now
  }

  /** Every run of the ring, read at any later time, agrees with the log of everything recorded. */
  ghost predicate AlwaysExact(c: Shape)
    requires c.Valid()
  {
    forall log: seq<Event>, ring: seq<WindowBucket>, now: nat :: Readable(c, log, ring, now) ==>
      Held(c, log, ring, now - c.length) == Active(c, log, now - c.length)
  }

  /** The ring is exact precisely when its width divides its length. */
  lemma ExactWhenWidthDivides(c: Shape)
    requires c.Valid()
    ensures AlwaysExact(c) <==> c.slots * c.width == c.length
  {
    if c.slots * c.width == c.length {
      forall log: seq<Event>, ring: seq<WindowBucket>, now: nat | Readable(c, log, ring, now)
        ensures Held(c, log, ring, now - c.length) == Active(c, log, now - c.length)
      {
        RingIsExact(c, log, ring, now);
      }
    } else {
      NotAlwaysExact(c);
    }
  }

  lemma NotAlwaysExact(c: Shape)
    requires c.Valid() && c.slots * c.width != c.length
    ensures !AlwaysExact(c)
  {
    TimesMonotone(1, c.width, UNIX);
    var log, ring, now := LosingRun(c, UNIX);
    assert Readable(c, log, ring, now);
  }

  lemma LosingRun(c: Shape, q: nat) returns (log: seq<Event>, ring: seq<WindowBucket>, now: nat)
    requires c.Valid() && c.slots * c.width != c.length && UNIX <= q * c.width
    ensures Readable(c, log, ring, now)
    ensures Held(c, log, ring, now - c.length) != Active(c, log, now - c.length)
  {
    TwoApartShareSlot(c, q);
    log, now := TwoApart(c, q), (q + c.slots) * c.width;
    ring := SomeRing(c, log);
    RingLosesEvents(c, ring, q);
    assert |log| == 2 && log[0].at <= now && log[1].at <= now;
  }

  lemma {:induction false} SomeRing(c: Shape, log: seq<Event>) returns (ring: seq<WindowBucket>)
    requires c.Valid() && Ordered(c, log)
    ensures RingHolds(c, log, ring)
  {
    if log == [] {
      ring := seq(c.slots, _ => Emptied(0));
    } else {
      var front, e := log[..|log| - 1], log[|log| - 1];
      assert log == front + [e];
      var before := SomeRing(c, front);
      RecordedRing(c, front, before, e);
      var j := SlotOf(c, e);
      var b := if before[j].timestamp == Ts(c, e) then before[j] else Emptied(Ts(c, e));
      ring := before[j := Added(b, e.isError, e.micros)];
    }
  }

  // --- what the window object's loops compute

  method RingStats(buckets: array<WindowBucket>, cutoff: int, ghost c: Shape, ghost log: seq<Event>)
    returns (s: WindowStats)
    requires c.Valid() && RingHolds(c, log, buckets[..])
    ensures Summarises(s, Held(c, log, buckets[..], cutoff))
  {
    ghost var ring := buckets[..];
    ActiveTotalsAreHeld(c, log, ring, cutoff, c.slots);
    var reqs, errs, merged, mergedCount := AddActive(buckets, cutoff);
    TotalsAreHeld(c, log, ring, cutoff);
    s := Summarise(reqs, errs, merged[..], mergedCount, Held(c, log, ring, cutoff));
  }

  method AddActive(buckets: array<WindowBucket>, cutoff: int)
    returns (totalReqs: nat, totalErrs: nat, merged: array<nat>, mergedCount: nat)
    requires Shaped(buckets[..])
    ensures fresh(merged)
    ensures Totals(totalReqs, totalErrs, merged[..]) == ActiveTotals(buckets[..], cutoff, buckets.Length)
    ensures mergedCount == SumN(merged[..])
  {
    ghost var ring := buckets[..];
    totalReqs, totalErrs, mergedCount := 0, 0, 0;
    merged := new nat[TOTAL_BUCKETS](_ => 0);
    TallyZero(merged[..], (x: nat) => x);
    assert merged[..] == ActiveTotals(ring, cutoff, 0).merged;
    for i := 0 to buckets.Length
      invariant buckets[..] == ring && merged.Length == TOTAL_BUCKETS
      invariant Totals(totalReqs, totalErrs, merged[..]) == ActiveTotals(ring, cutoff, i)
      invariant mergedCount == SumN(merged[..])
    {
      var b := buckets[i];
      assert b == ring[i];
      if b.timestamp > cutoff {
        totalReqs, totalErrs := totalReqs + b.requests, totalErrs + b.errors;
        mergedCount := MergeCounts(merged, mergedCount, b.counts);
      }
    }
  }

  method MergeCounts(merged: array<nat>, mergedCount: nat, counts: seq<nat>) returns (count: nat)
    requires merged.Length == |counts| == TOTAL_BUCKETS && mergedCount == SumN(merged[..])
    modifies merged
    ensures merged[..] == Merged(old(merged[..]), counts) && count == SumN(merged[..])
  {
    count := mergedCount;
    for bi := 0 to TOTAL_BUCKETS
      invariant forall k :: 0 <= k < bi ==> merged[k] == old(merged[k]) + counts[k]
      invariant forall k :: bi <= k < TOTAL_BUCKETS ==> merged[k] == old(merged[k])
      invariant count == SumN(merged[..])
    {
      var n := counts[bi];
      if n > 0 {
        ghost var before := merged[..];
        merged[bi] := merged[bi] + n;
        count := count + n;
        TallyUpdate(before, bi, merged[bi], (x: nat) => x);
        assert merged[..] == before[bi := merged[bi]];
      }
    }
  }

  method Summarise(reqs: nat, errs: nat, merged: seq<nat>, mergedCount: nat, ghost events: seq<Event>)
    returns (s: WindowStats)
    requires AreTotals(Totals(reqs, errs, merged), events) && mergedCount == SumN(merged)
    ensures Summarises(s, events)
  {
    var errRate := 0.0;
    if reqs > 0 {
      errRate := Rate(errs, reqs);
    }
    var p50 := MergedPercentile(merged, mergedCount, 50.0, events);
    var p90 := MergedPercentile(merged, mergedCount, 90.0, events);
    var p99 := MergedPercentile(merged, mergedCount, 99.0, events);
    s := WindowStats(reqs, errs, errRate, p50, p90, p99);
  }

  method MergedPercentile(merged: seq<nat>, mergedCount: nat, p: real, ghost events: seq<Event>) returns (v: nat)
    requires mergedCount == |events| && 0.0 < p < 100.0 && CountsOf(merged, Latencies(events))
    ensures events == [] ==> v == 0
    ensures events != [] ==> v == PercentileOf(Latencies(events), p)
  {
    if mergedCount == 0 {
      return 0;
    }
    RankInRange(p, mergedCount);
    v := ScanTo(merged, Rank(p, mergedCount), Latencies(events));
  }

  // --- the window object

  class SlidingWindow {
    const bucketWidth: nat
    const windowLength: nat
    const numBuckets: nat
    const buckets: array<WindowBucket>
    ghost var log: seq<Event>

    ghost function Dimensions(): Shape {
      Shape(bucketWidth, windowLength, numBuckets)
    }

    ghost predicate Valid()
      reads this, buckets
    {
      Dimensions().Valid() && Ordered(Dimensions(), log) && RingHolds(Dimensions(), log, buckets[..])
    }

    constructor (width: int, length: int)
      ensures Valid() && log == [] && fresh(buckets)
      ensures bucketWidth == (if width <= 0 then 1_000_000_000 else width)
      ensures windowLength == (if length < bucketWidth then bucketWidth else length)
    {
      var w: nat := if width <= 0 then SECOND else width;
      var l: nat := if length < w then w else length;
      DivideMonotone(w, l, w);
      bucketWidth, windowLength, numBuckets := w, l, l / w;
      buckets := new WindowBucket[l / w](_ => Emptied(0));
      log := [];
    }

    /** Clock readings arrive in order and after the Unix epoch. */
    method Record(now: nat, isError: bool, statusCode: int, d: int)
      requires Valid() && Ordered(Dimensions(), log + [Event(now, isError || statusCode >= 500, Micros(d))])
      modifies `log, buckets
      ensures Valid() && log == old(log) + [Event(now, isError || statusCode >= 500, Micros(d))]
    {
      var nowTrunc := Truncate(now, bucketWidth);
      var idx := Slot(nowTrunc, bucketWidth, numBuckets);
      ghost var e := Event(now, isError || statusCode >= 500, Micros(d));
      RecordedRing(Dimensions(), log, buckets[..], e);
      ghost var ring := buckets[..];
      var b := buckets[idx];
      if b.timestamp != nowTrunc {
        b := Emptied(nowTrunc);
      }
      buckets[idx] := Added(b, isError || statusCode >= 500, Micros(d));
      log := log + [e];
      assert buckets[..] == ring[idx := buckets[idx]];
    }

    /** The figures are those of the held events, whatever `now` reads. */
    method Stats(now: nat) returns (s: WindowStats)
      requires Valid()
      ensures Summarises(s, Held(Dimensions(), log, buckets[..], now - windowLength))
      ensures s.requests <= |Active(Dimensions(), log, now - windowLength)|
      ensures s.errors <= Tally(Active(Dimensions(), log, now - windowLength), IsErr())
    {
      HeldTallyAtMost(Dimensions(), log, buckets[..], now - windowLength, IsErr());
      HeldAtMostActive(Dimensions(), log, buckets[..], now - windowLength);
      s := RingStats(buckets, now - windowLength, Dimensions(), log);
    }
  }
}
