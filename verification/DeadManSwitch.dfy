/** The safety wrapper around a chaos driver (pkg/chaos/driver.go): fault injection, the dead-man-switch
    watchdog, its possibly stale callbacks, and the context monitors, interleaved between lock acquisitions. */
module DeadManSwitch {
  import opened Options

  datatype Phase = Idle | Applying | Injected | Reverting | Reverted | Failed

  datatype FaultSpec = FaultSpec(
    id: string, iface: string, latency: int, jitter: int, duration: int,
    lossPercent: real, corruptionPercent: real, correlation: real, dnsFailPercent: real, cpuLoadPercent: int)
  {
    predicate Valid() {
      && id != "" && iface != "" && duration > 0
      && !(jitter > latency && latency > 0)
      && 0.0 <= lossPercent <= 100.0 && 0.0 <= corruptionPercent <= 100.0
      && 0.0 <= correlation <= 1.0 && 0.0 <= dnsFailPercent <= 100.0
      && 0 <= cpuLoadPercent <= 100
    }
  }

  datatype SpecProblem =
    | IdMissing | InterfaceMissing | NoDuration | JitterTooLarge
    | LossOutOfRange | CorruptionOutOfRange | CorrelationOutOfRange | DnsFailOutOfRange | CpuLoadOutOfRange

  /** The checks one after the other, each naming what is wrong. */
  method Validate(f: FaultSpec) returns (problem: Option<SpecProblem>)
    ensures problem.None? <==> f.Valid()
    ensures problem == Some(NoDuration) ==> f.duration <= 0
    ensures problem == Some(JitterTooLarge) ==> 0 < f.latency < f.jitter
  {
    if f.id == "" {
      return Some(IdMissing);
    }
    if f.iface == "" {
      return Some(InterfaceMissing);
    }
    if f.duration <= 0 {
      return Some(NoDuration);
    }
    if f.jitter > f.latency && f.latency > 0 {
      return Some(JitterTooLarge);
    }
    if f.lossPercent < 0.0 || f.lossPercent > 100.0 {
      return Some(LossOutOfRange);
    }
    if f.corruptionPercent < 0.0 || f.corruptionPercent > 100.0 {
      return Some(CorruptionOutOfRange);
    }
    if f.correlation < 0.0 || f.correlation > 1.0 {
      return Some(CorrelationOutOfRange);
    }
    if f.dnsFailPercent < 0.0 || f.dnsFailPercent > 100.0 {
      return Some(DnsFailOutOfRange);
    }
    if f.cpuLoadPercent < 0 || f.cpuLoadPercent > 100 {
      return Some(CpuLoadOutOfRange);
    }
    return None;
  }

  /** A timer waits, then its callback waits for the lock, then it is over; stopping it helps only while it
      waits. */
  datatype TimerState = Armed | Queued | Over
  datatype Timer = Timer(deadline: int, state: TimerState)

  /** A goroutine waiting for one fault's context, then, between its two lock acquisitions, set on reverting. */
  datatype MonitorState = Watching | Deciding | Gone
  datatype Monitor = Monitor(faultId: string, state: MonitorState)

  /** What the underlying driver did: success settles whether a fault is active, failure may leave either. */
  datatype Outcome = Success | Failure(active: bool)

  datatype System = System(
    now: int,
    phase: Phase,
    fault: Option<string>,
    expiresAt: int,
    watchdog: Option<nat>,
    timers: seq<Timer>,
    monitors: seq<Monitor>,
    active: bool)

  datatype Event =
    | ApplyCall(f: FaultSpec, result: Outcome)
    | RevertCall(result: Outcome)
    | Tick(to: int)
    | Fire(timer: nat)
    | RunCallback(timer: nat, result: Outcome)
    | ContextDone(monitor: nat)
    | MonitorReverts(monitor: nat, result: Outcome)

  function Start(now: int): System {
    System(now, Idle, None, 0, None, [], [], false)
  }

  // --- what happens under the lock

  function StopWatchdog(s: System): System {
    if s.watchdog.None? then s
    else if s.watchdog.value < |s.timers| && s.timers[s.watchdog.value].state == Armed then
      s.(watchdog := None, timers := s.timers[s.watchdog.value := s.timers[s.watchdog.value].(state := Over)])
    else s.(watchdog := None)
  }

  function Applied(s: System, f: FaultSpec, result: Outcome): System {
    if !f.Valid() then s
    else
      var t := StopWatchdog(s);
      match result
      case Failure(active) => t.(phase := Failed, fault := Some(f.id), active := active)
      case Success =>
        t.(phase := Injected, fault := Some(f.id), active := true, expiresAt := s.now + f.duration,
           watchdog := Some(|t.timers|), timers := t.timers + [Timer(s.now + f.duration, Armed)],
           monitors := t.monitors + [Monitor(f.id, Watching)])
  }

  function RevertedBy(s: System, result: Outcome): System {
    var t := StopWatchdog(s);
    if t.phase == Idle || t.phase == Reverted then t
    else
      match result
      case Failure(active) => t.(phase := Failed, active := active)
      case Success => t.(phase := Reverted, fault := None, expiresAt := 0, active := false)
  }

  function WithTimer(s: System, i: nat, state: TimerState): System
    requires i < |s.timers|
  {
    s.(timers := s.timers[i := s.timers[i].(state := state)])
  }

  function WithMonitor(s: System, i: nat, state: MonitorState): System
    requires i < |s.monitors|
  {
    s.(monitors := s.monitors[i := s.monitors[i].(state := state)])
  }

  /** Time does not pass an armed deadline without the timer firing. */
  predicate MayAdvance(s: System, to: int) {
    s.now <= to && forall i :: 0 <= i < |s.timers| && s.timers[i].state == Armed ==> to <= s.timers[i].deadline
  }

  /** One atomic step; an event that cannot happen in a state changes nothing. */
  function Next(s: System, e: Event): System {
    match e
    case ApplyCall(f, result) => Applied(s, f, result)
    case RevertCall(result) => RevertedBy(s, result)
    case Tick(to) => if MayAdvance(s, to) then s.(now := to) else s
    case Fire(i) =>
      if i < |s.timers| && s.timers[i].state == Armed && s.timers[i].deadline <= s.now then WithTimer(s, i, Queued)
      else s
    case RunCallback(i, result) =>
      if i < |s.timers| && s.timers[i].state == Queued then RevertedBy(WithTimer(s, i, Over), result) else s
    case ContextDone(i) =>
      if i < |s.monitors| && s.monitors[i].state == Watching then
        WithMonitor(s, i, if s.fault == Some(s.monitors[i].faultId) then Deciding else Gone)
      else s
    case MonitorReverts(i, result) =>
      if i < |s.monitors| && s.monitors[i].state == Deciding then RevertedBy(WithMonitor(s, i, Gone), result) else s
  }

  function Run(start: int, events: seq<Event>): System {
    if events == [] then Start(start)
    else Next(Run(start, events[..|events| - 1]), events[|events| - 1])
  }

  // --- what every interleaving keeps, whenever the lock is free

  ghost predicate Inv(s: System) {
    && s.phase != Applying && s.phase != Reverting
    && (s.watchdog.Some? <==> s.phase == Injected)
    && (s.watchdog.Some? ==>
          && s.watchdog.value < |s.timers|
          && s.timers[s.watchdog.value].state != Over
          && s.timers[s.watchdog.value].deadline == s.expiresAt)
    && (forall i :: 0 <= i < |s.timers| ==>
          && (s.timers[i].state == Armed ==> s.watchdog == Some(i) && s.now <= s.timers[i].deadline)
          && (s.timers[i].state == Queued ==> s.timers[i].deadline <= s.now))
    && (s.phase == Idle || s.phase == Reverted ==> !s.active)
    && (s.fault.None? <==> s.phase == Idle || s.phase == Reverted)
  }

  lemma StopKeepsRest(s: System)
    requires Inv(s)
    ensures var t := StopWatchdog(s);
      && t == s.(watchdog := None, timers := t.timers)
      && |t.timers| == |s.timers|
      && (forall i :: 0 <= i < |s.timers| ==>
            t.timers[i].deadline == s.timers[i].deadline && t.timers[i].state != Armed &&
            (t.timers[i].state == Queued ==> s.timers[i].state == Queued))
  {
  }

  lemma RevertKeepsInv(s: System, result: Outcome)
    requires Inv(s)
    ensures Inv(RevertedBy(s, result))
  {
  }

  lemma ApplyKeepsInv(s: System, f: FaultSpec, result: Outcome)
    requires Inv(s)
    ensures Inv(Applied(s, f, result))
  {
    StopKeepsRest(s);
  }

  /** A callback that has started is over whether or not it is the current watchdog's. */
  lemma CallbackKeepsInv(s: System, i: nat, result: Outcome)
    requires Inv(s) && i < |s.timers| && s.timers[i].state == Queued
    ensures Inv(RevertedBy(WithTimer(s, i, Over), result))
  {
    var o := WithTimer(s, i, Over);
    var t := StopWatchdog(o);
    assert forall k :: 0 <= k < |s.timers| && t.timers[k].state == Queued ==> s.timers[k].state == Queued;
  }

  lemma NextKeepsInv(s: System, e: Event)
    requires Inv(s)
    ensures Inv(Next(s, e))
  {
    match e
    case ApplyCall(f, result) => ApplyKeepsInv(s, f, result);
    case RevertCall(result) => RevertKeepsInv(s, result);
    case Tick(to) =>
    case Fire(i) =>
    case RunCallback(i, result) =>
      if i < |s.timers| && s.timers[i].state == Queued { CallbackKeepsInv(s, i, result); }
    case ContextDone(i) =>
    case MonitorReverts(i, result) =>
      if i < |s.monitors| && s.monitors[i].state == Deciding { RevertKeepsInv(WithMonitor(s, i, Gone), result); }
  }

  lemma {:induction false} RunKeepsInv(start: int, events: seq<Event>)
    ensures Inv(Run(start, events))
  {
    if events == [] {
    } else {
      RunKeepsInv(start, events[..|events| - 1]);
      NextKeepsInv(Run(start, events[..|events| - 1]), events[|events| - 1]);
    }
  }

  // --- the guarantees

  /** Some interleaving of calls, timers, callbacks and monitors leads here. */
  ghost predicate Reachable(s: System) {
    exists start: int, events: seq<Event> :: s == Run(start, events)
  }

  lemma ReachableIsInv(s: System)
    requires Reachable(s)
    ensures Inv(s)
  {
    var start: int, events: seq<Event> :| s == Run(start, events);
    RunKeepsInv(start, events);
  }

  /** The current fault's own watchdog is still going to revert it. */
  predicate WatchdogPending(s: System) {
    s.watchdog.Some? && s.watchdog.value < |s.timers| && s.timers[s.watchdog.value].state != Over
  }

  /** After any interleaving: an injected fault has its own watchdog armed, or its callback already queued,
      and always queued once past the expiry; a switch at rest has no active fault; and no caller ever sees
      the switch half way through an operation. */
  lemma EveryInterleavingIsSafe(s: System)
    requires Reachable(s)
    ensures
      && (s.phase == Injected ==> WatchdogPending(s) && s.timers[s.watchdog.value].deadline == s.expiresAt)
      && (s.phase == Injected && s.now > s.expiresAt ==>
            WatchdogPending(s) && s.timers[s.watchdog.value].state == Queued)
      && (s.phase == Idle || s.phase == Reverted ==> !s.active && s.fault.None?)
      && s.phase != Applying && s.phase != Reverting
  {
    ReachableIsInv(s);
  }

  /** Past its expiry, with no callback left waiting for the lock, no fault is injected any more. */
  lemma NothingInjectedPastExpiry(s: System)
    requires Reachable(s)
    requires s.now > s.expiresAt && forall i :: 0 <= i < |s.timers| ==> s.timers[i].state != Queued
    ensures s.phase != Injected
  {
    ReachableIsInv(s);
  }

  /** An active fault has a watchdog pending in every reachable state but one kind: after the underlying
      driver has failed. Whether anything else can still end it then is settled further down. */
  lemma UnattendedOnlyAfterFailure(s: System)
    requires Reachable(s)
    ensures s.active ==> (WatchdogPending(s) <==> s.phase != Failed)
  {
    ReachableIsInv(s);
  }

  lemma RunSnoc(start: int, events: seq<Event>, e: Event)
    ensures Run(start, events + [e]) == Next(Run(start, events), e)
  {
  }

  /** A fault applied and run out: its callback is waiting for the lock. */
  function RunOut(f: FaultSpec): seq<Event> {
    [ApplyCall(f, Success)] + [Tick(f.duration)] + [Fire(0)]
  }

  lemma AfterRunOut(f: FaultSpec)
    requires f.Valid()
    ensures Run(0, RunOut(f)) ==
      System(f.duration, Injected, Some(f.id), f.duration, Some(0),
             [Timer(f.duration, Queued)], [Monitor(f.id, Watching)], true)
  {
    RunSnoc(0, [], ApplyCall(f, Success));
    assert [] + [ApplyCall(f, Success)] == [ApplyCall(f, Success)];
    RunSnoc(0, [ApplyCall(f, Success)], Tick(f.duration));
    RunSnoc(0, [ApplyCall(f, Success)] + [Tick(f.duration)], Fire(0));
  }

  /** That exception is real: when the dead-man switch fires and the driver cannot revert, the fault stays
      active and no timer will ever try again. Only the monitor of the fault's context is left to revert it. */
  lemma FailedRevertIsLeftToTheMonitor(f: FaultSpec)
    requires f.Valid()
    ensures var s := Run(0, RunOut(f) + [RunCallback(0, Failure(true))]);
      var after := Next(Next(s, ContextDone(0)), MonitorReverts(0, Success));
      && s.active && s.phase == Failed && !WatchdogPending(s)
      && (forall i :: 0 <= i < |s.timers| ==> s.timers[i].state == Over)
      && after.phase == Reverted && !after.active
  {
    AfterRunOut(f);
    RunSnoc(0, RunOut(f), RunCallback(0, Failure(true)));
  }

  /** With a driver that can revert, an injected fault is gone once its own deadline has been reached, the
      timer has fired and its callback has run, whatever happened before. */
  lemma WatchdogReverts(s: System, t: nat)
    requires Reachable(s) && s.phase == Injected && s.watchdog == Some(t)
    ensures var due := Next(s, Tick(if s.now < s.expiresAt then s.expiresAt else s.now));
      var after := Next(Next(due, Fire(t)), RunCallback(t, Success));
      after.phase == Reverted && !after.active && after.fault.None?
  {
    ReachableIsInv(s);
  }

  /** In state `a`, timer `t` watches fault `id`: it cannot fire before `deadline`, and once time has reached
      the deadline its firing and its callback, with a driver that can revert, end the fault. */
  ghost predicate WatchedUntil(a: System, id: string, t: nat, deadline: int) {
    var due := Next(a, Tick(deadline));
    var after := Next(Next(due, Fire(t)), RunCallback(t, Success));
    && a.phase == Injected && a.active && a.fault == Some(id) && a.watchdog == Some(t)
    && (forall to :: to < deadline ==> Next(Next(a, Tick(to)), Fire(t)) == Next(a, Tick(to)))
    && due.now == deadline
    && after.phase == Reverted && !after.active
  }

  /** From any reachable state: a fault that is applied becomes the current one with a watchdog of its own,
      that watchdog cannot fire before the fault's duration is over, and firing then reverts it. */
  lemma AppliedFaultIsWatched(s: System, f: FaultSpec)
    requires Reachable(s) && f.Valid()
    ensures WatchedUntil(Next(s, ApplyCall(f, Success)), f.id, |s.timers|, s.now + f.duration)
  {
    ReachableIsInv(s);
    ApplyKeepsInv(s, f, Success);
    StopKeepsRest(s);
    ArmedTimerWatches(Next(s, ApplyCall(f, Success)), |s.timers|);
  }

  lemma ArmedTimerWatches(a: System, t: nat)
    requires Inv(a) && a.phase == Injected && a.active && a.watchdog == Some(t) && a.timers[t].state == Armed
    requires a.now < a.expiresAt
    ensures WatchedUntil(a, a.fault.value, t, a.expiresAt)
  {
    forall to | to < a.expiresAt
      ensures Next(Next(a, Tick(to)), Fire(t)) == Next(a, Tick(to))
    {
      assert Next(a, Tick(to)).timers == a.timers;
    }
    assert MayAdvance(a, a.expiresAt);
  }

  function RunFrom(s: System, events: seq<Event>): System {
    if events == [] then s else Next(RunFrom(s, events[..|events| - 1]), events[|events| - 1])
  }

  /** What may go on behind an injected fault: no caller applies or reverts anything, the fault's own context,
      watched by monitor `own`, stays open, and so do all others unless `contexts` allows them to end. */
  predicate Undisturbed(events: seq<Event>, contexts: bool, own: nat) {
    forall e :: e in events ==>
      !e.ApplyCall? && !e.RevertCall? && (e.ContextDone? ==> contexts && e.monitor != own)
  }

  /** Whatever goes on behind it, the fault injected in `a` is still the injected one at every moment before
      its expiry. */
  ghost predicate LastsUntilExpiry(a: System, contexts: bool, own: nat) {
    forall events: seq<Event> | Undisturbed(events, contexts, own) :: StillInjected(a, RunFrom(a, events))
  }

  predicate StillInjected(a: System, now: System) {
    now.now < a.expiresAt ==>
      now.phase == Injected && now.active && now.fault == a.fault && now.expiresAt == a.expiresAt
  }

  /** No callback of an earlier fault is waiting for the lock, and no monitor of one has decided to revert. */
  predicate NothingLate(s: System) {
    && (forall i :: 0 <= i < |s.timers| ==> s.timers[i].state != Queued)
    && forall i :: 0 <= i < |s.monitors| ==> s.monitors[i].state != Deciding
  }

  /** No earlier application under the same fault id still has its context watched. */
  predicate IdUnwatched(s: System, id: string) {
    forall i :: 0 <= i < |s.monitors| ==> !(s.monitors[i].state == Watching && s.monitors[i].faultId == id)
  }

  /** From any reachable state, a fault that is applied is safe from everything that went before it exactly when
      nothing is late then; and, if earlier contexts may still end, when none of them is watched under its id
      either. Otherwise some late callback or monitor can revert it before it has expired. */
  lemma AppliedFaultLastsExactlyWhenNothingIsLate(s: System, f: FaultSpec, contexts: bool)
    requires Reachable(s) && f.Valid()
    ensures LastsUntilExpiry(Next(s, ApplyCall(f, Success)), contexts, |s.monitors|)
      <==> NothingLate(s) && (contexts ==> IdUnwatched(s, f.id))
  {
    ReachableIsInv(s);
    StopKeepsRest(s);
    var a := Next(s, ApplyCall(f, Success));
    if NothingLate(s) && (contexts ==> IdUnwatched(s, f.id)) {
      forall events: seq<Event> | Undisturbed(events, contexts, |s.monitors|)
        ensures StillInjected(a, RunFrom(a, events))
      {
        QuietRun(a, events, contexts, |s.monitors|);
      }
    } else {
      var events := Disturbance(s, f, contexts);
      assert !StillInjected(a, RunFrom(a, events));
    }
  }

  /** Past the expiry, or with nothing left behind the fault that could end it before. */
  ghost predicate Quiet(a: System, contexts: bool, own: nat, b: System) {
    a.expiresAt <= b.now || (
      && b.phase == Injected && b.active && b.fault == a.fault && b.expiresAt == a.expiresAt
      && (forall i :: 0 <= i < |b.timers| ==>
            b.timers[i].state == Over || (b.timers[i].state == Armed && b.timers[i].deadline == a.expiresAt))
      && (forall i :: 0 <= i < |b.monitors| ==>
            && b.monitors[i].state != Deciding
            && (contexts && i != own && b.monitors[i].state == Watching ==> b.fault != Some(b.monitors[i].faultId))))
  }

  lemma {:induction false} QuietRun(a: System, events: seq<Event>, contexts: bool, own: nat)
    requires Quiet(a, contexts, own, a) && Undisturbed(events, contexts, own)
    ensures Quiet(a, contexts, own, RunFrom(a, events))
  {
    if events == [] {
    } else {
      QuietRun(a, events[..|events| - 1], contexts, own);
      QuietStep(a, contexts, own, RunFrom(a, events[..|events| - 1]), events[|events| - 1]);
    }
  }

  lemma QuietStep(a: System, contexts: bool, own: nat, b: System, e: Event)
    requires Quiet(a, contexts, own, b) && Undisturbed([e], contexts, own)
    ensures Quiet(a, contexts, own, Next(b, e))
  {
    assert e in [e];
  }

  /** A run that ends the fault at the moment it was applied. */
  lemma Disturbance(s: System, f: FaultSpec, contexts: bool) returns (events: seq<Event>)
    requires Inv(s) && f.Valid() && !(NothingLate(s) && (contexts ==> IdUnwatched(s, f.id)))
    ensures Undisturbed(events, contexts, |s.monitors|)
    ensures var a := Next(s, ApplyCall(f, Success)); !StillInjected(a, RunFrom(a, events))
  {
    StopKeepsRest(s);
    var a := Next(s, ApplyCall(f, Success));
    if i :| 0 <= i < |s.timers| && s.timers[i].state == Queued {
      events := [RunCallback(i, Success)];
      OneStep(a, RunCallback(i, Success));
    } else if i :| 0 <= i < |s.monitors| && s.monitors[i].state == Deciding {
      events := [MonitorReverts(i, Success)];
      OneStep(a, MonitorReverts(i, Success));
    } else {
      var i :| 0 <= i < |s.monitors| && s.monitors[i].state == Watching && s.monitors[i].faultId == f.id;
      events := [ContextDone(i)] + [MonitorReverts(i, Success)];
      OneStep(a, ContextDone(i));
      assert events[..1] == [ContextDone(i)];
    }
  }

  lemma OneStep(a: System, e: Event)
    ensures RunFrom(a, [e]) == Next(a, e)
  {
    assert [e][..0] == [];
  }

  /** Before the expiry, a callback that is waiting belongs to an earlier fault. */
  lemma EarlyCallbacksAreStale(s: System, i: nat)
    requires Reachable(s) && s.phase == Injected && s.now < s.expiresAt
    requires i < |s.timers| && s.timers[i].state == Queued
    ensures s.watchdog != Some(i)
  {
    ReachableIsInv(s);
  }

  /** And such a callback does cut the newer fault short: it reverts whatever is injected when it gets the
      lock. */
  lemma StaleCallbackRevertsNewerFault(f: FaultSpec, g: FaultSpec)
    requires f.Valid() && g.Valid()
    ensures var s := Run(0, RunOut(f) + [ApplyCall(g, Success)]);
      var after := Next(s, RunCallback(0, Success));
      s.phase == Injected && s.fault == Some(g.id) && s.now < s.expiresAt && after.phase == Reverted && !after.active
  {
    AfterRunOut(f);
    RunSnoc(0, RunOut(f), ApplyCall(g, Success));
  }

  /** Neither is a monitor that saw its context end and lost the race for the lock any better. */
  lemma DecidedMonitorRevertsNewerFault(f: FaultSpec, g: FaultSpec)
    requires f.Valid() && g.Valid()
    ensures var s := Run(0, [ApplyCall(f, Success)] + [ContextDone(0)] + [ApplyCall(g, Success)]);
      var after := Next(s, MonitorReverts(0, Success));
      s.phase == Injected && s.fault == Some(g.id) && s.now < s.expiresAt && after.phase == Reverted && !after.active
  {
    RunSnoc(0, [], ApplyCall(f, Success));
    assert [] + [ApplyCall(f, Success)] == [ApplyCall(f, Success)];
    RunSnoc(0, [ApplyCall(f, Success)], ContextDone(0));
    RunSnoc(0, [ApplyCall(f, Success)] + [ContextDone(0)], ApplyCall(g, Success));
  }

  // --- when an active fault can be left behind for good

  /** No caller applies or reverts anything. */
  predicate OnItsOwn(events: seq<Event>) {
    forall e :: e in events ==> !e.ApplyCall? && !e.RevertCall?
  }

  /** Something the switch has started, a timer, a callback or a monitor, can still end the fault. */
  ghost predicate CanStillEnd(s: System) {
    exists events: seq<Event> :: OnItsOwn(events) && !RunFrom(s, events).active
  }

  predicate SomeoneLeft(s: System) {
    || s.phase == Injected
    || (exists i :: 0 <= i < |s.timers| && s.timers[i].state == Queued)
    || (exists i :: 0 <= i < |s.monitors| && s.monitors[i].state == Deciding)
    || WatchedByMonitor(s)
  }

  predicate WatchedByMonitor(s: System) {
    exists i :: 0 <= i < |s.monitors| && s.monitors[i].state == Watching && s.fault == Some(s.monitors[i].faultId)
  }

  /** In any reachable state an active fault can still end without a caller's help exactly when it is injected,
      a callback is waiting, a monitor has decided to revert, or one is still watching the fault's context. */
  lemma ActiveFaultCanEndExactlyWhenSomeoneIsLeft(s: System)
    requires Reachable(s) && s.active
    ensures CanStillEnd(s) <==> SomeoneLeft(s)
  {
    ReachableIsInv(s);
    if SomeoneLeft(s) {
      var events := Ending(s);
      assert CanStillEnd(s);
    } else {
      forall events: seq<Event> | OnItsOwn(events)
        ensures RunFrom(s, events).active
      {
        StuckRun(s, events);
      }
    }
  }

  /** Events that end the fault. */
  lemma Ending(s: System) returns (events: seq<Event>)
    requires Reachable(s) && s.active && SomeoneLeft(s)
    ensures OnItsOwn(events) && !RunFrom(s, events).active
  {
    ReachableIsInv(s);
    if s.phase == Injected {
      var t, due := s.watchdog.value, Tick(if s.now < s.expiresAt then s.expiresAt else s.now);
      WatchdogReverts(s, t);
      events := ThreeSteps(s, due, Fire(t), RunCallback(t, Success));
    } else if i :| 0 <= i < |s.timers| && s.timers[i].state == Queued {
      events := [RunCallback(i, Success)];
      OneStep(s, RunCallback(i, Success));
    } else if i :| 0 <= i < |s.monitors| && s.monitors[i].state == Deciding {
      events := [MonitorReverts(i, Success)];
      OneStep(s, MonitorReverts(i, Success));
    } else {
      var i :| 0 <= i < |s.monitors| && s.monitors[i].state == Watching && s.fault == Some(s.monitors[i].faultId);
      events := [ContextDone(i)] + [MonitorReverts(i, Success)];
      OneStep(s, ContextDone(i));
      assert events[..1] == [ContextDone(i)];
    }
  }

  lemma ThreeSteps(s: System, a: Event, b: Event, c: Event) returns (events: seq<Event>)
    ensures events == [a, b, c] && RunFrom(s, events) == Next(Next(Next(s, a), b), c)
  {
    events := [a, b, c];
    OneStep(s, a);
    assert events[..2] == [a, b] && [a, b][..1] == [a];
  }

  ghost predicate Stuck(s: System) {
    && s.active && s.phase == Failed
    && (forall i :: 0 <= i < |s.timers| ==> s.timers[i].state == Over)
    && (forall i :: 0 <= i < |s.monitors| ==> s.monitors[i].state != Deciding)
    && !WatchedByMonitor(s)
  }

  lemma {:induction false} StuckRun(s: System, events: seq<Event>)
    requires Stuck(s) && OnItsOwn(events)
    ensures Stuck(RunFrom(s, events))
  {
    if events == [] {
    } else {
      StuckRun(s, events[..|events| - 1]);
      StuckStep(RunFrom(s, events[..|events| - 1]), events[|events| - 1]);
    }
  }

  lemma StuckStep(s: System, e: Event)
    requires Stuck(s) && !e.ApplyCall? && !e.RevertCall?
    ensures Stuck(Next(s, e))
  {
    var t := Next(s, e);
    assert forall i :: 0 <= i < |t.monitors| && t.monitors[i].state == Watching ==> t.monitors[i] == s.monitors[i];
  }

  /** A driver that fails to apply a fault but leaves it active leaves it for good: no timer or monitor is
      started for it. */
  lemma FailedApplyIsLeftBehind(f: FaultSpec)
    requires f.Valid()
    ensures var s := Run(0, [ApplyCall(f, Failure(true))]); s.active && !CanStillEnd(s)
  {
    RunSnoc(0, [], ApplyCall(f, Failure(true)));
    assert [] + [ApplyCall(f, Failure(true))] == [ApplyCall(f, Failure(true))];
    var s := Run(0, [ApplyCall(f, Failure(true))]);
    assert Reachable(s);
    ActiveFaultCanEndExactlyWhenSomeoneIsLeft(s);
  }

  /** And so does a monitor whose revert fails, having stopped the watchdog. */
  lemma FailedMonitorLeavesTheFaultBehind(f: FaultSpec)
    requires f.Valid()
    ensures var s := Run(0, [ApplyCall(f, Success)] + [ContextDone(0)] + [MonitorReverts(0, Failure(true))]);
      s.active && !CanStillEnd(s)
  {
    RunSnoc(0, [], ApplyCall(f, Success));
    assert [] + [ApplyCall(f, Success)] == [ApplyCall(f, Success)];
    RunSnoc(0, [ApplyCall(f, Success)], ContextDone(0));
    RunSnoc(0, [ApplyCall(f, Success)] + [ContextDone(0)], MonitorReverts(0, Failure(true)));
    var s := Run(0, [ApplyCall(f, Success)] + [ContextDone(0)] + [MonitorReverts(0, Failure(true))]);
    assert Reachable(s);
    ActiveFaultCanEndExactlyWhenSomeoneIsLeft(s);
  }

  /** Reverting again, in any way, changes nothing. */
  lemma RevertIsIdempotent(s: System, again: Outcome)
    requires Inv(s)
    ensures var once := RevertedBy(s, Success); RevertedBy(once, again) == once
  {
  }

  // --- the wrapper object

  /** One driver wrapper together with the timers and goroutines it has started. */
  class ManagedChaosDriver {
    var now: int
    var phase: Phase
    var fault: Option<string>
    var expiresAt: int
    var watchdogTimer: Option<nat>
    var timers: seq<Timer>
    var monitors: seq<Monitor>
    var active: bool

    ghost function View(): System
      reads this
    {
      System(now, phase, fault, expiresAt, watchdogTimer, timers, monitors, active)
    }

    constructor (start: int)
      ensures View() == Start(start) && Inv(View())
    {
      now, phase, fault, expiresAt, watchdogTimer := start, Idle, None, 0, None;
      timers, monitors, active := [], [], false;
    }

    method StopTimer()
      modifies this
      ensures View() == StopWatchdog(old(View()))
    {
      if watchdogTimer.Some? {
        var t := watchdogTimer.value;
        if t < |timers| && timers[t].state == Armed {
          timers := timers[t := timers[t].(state := Over)];
        }
        watchdogTimer := None;
      }
    }

    /** `result` is what the underlying driver answers when asked to apply the fault. */
    method Apply(f: FaultSpec, result: Outcome) returns (ok: bool)
      requires Inv(View())
      modifies this
      ensures View() == Applied(old(View()), f, result) && Inv(View())
      ensures ok <==> f.Valid() && result.Success?
    {
      ApplyKeepsInv(View(), f, result);
      var problem := Validate(f);
      if problem.Some? {
        return false;
      }
      StopTimer();
      phase := Applying;
      fault := Some(f.id);
      if result.Failure? {
        active := result.active;
        phase := Failed;
        return false;
      }
      active := true;
      phase := Injected;
      expiresAt := now + f.duration;
      timers := timers + [Timer(expiresAt, Armed)];
      watchdogTimer := Some(|timers| - 1);
      monitors := monitors + [Monitor(f.id, Watching)];
      return true;
    }

    /** `result` is what the underlying driver answers if it is asked to revert. */
    method Revert(result: Outcome) returns (ok: bool)
      requires Inv(View())
      modifies this
      ensures View() == RevertedBy(old(View()), result) && Inv(View())
      ensures ok <==> old(phase) == Idle || old(phase) == Reverted || result.Success?
    {
      RevertKeepsInv(View(), result);
      StopTimer();
      if phase == Idle || phase == Reverted {
        return true;
      }
      phase := Reverting;
      if result.Failure? {
        active := result.active;
        phase := Failed;
        return false;
      }
      active := false;
      phase := Reverted;
      fault := None;
      expiresAt := 0;
      return true;
    }
  }
}
