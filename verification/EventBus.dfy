/** In-memory fan-out of live events to subscribers (pkg/server/eventbus.go). Publishing holds the read lock
    over one send per subscriber, so sends of different publishers and receives interleave; subscribing,
    unsubscribing and closing hold the write lock. */
module EventBus {

  datatype Event = Event(runId: string, payload: int)

  /** A channel, with the history of what was offered to it and what became of it. */
  datatype Channel = Channel(
    run: string, capacity: nat, queue: seq<Event>, closed: bool, unsubscribed: bool,
    closes: nat, offered: seq<Event>, accepted: seq<Event>, received: seq<Event>, drops: nat)

  /** A call of Publish: the subscribers it found, and those it still has to offer its event to. */
  datatype Publisher =
    | Publishing(event: Event, found: set<nat>, remaining: set<nat>)
    | Returned(event: Event, found: set<nat>)

  /** One send, delivered or dropped. */
  datatype Offering = Offering(publisher: nat, channel: nat, event: Event)

  /** `offers` is the history of all sends; `panicked` records a send on, or a close of, a closed channel. */
  datatype Bus = Bus(
    subscribers: map<string, set<nat>>, closed: bool, channels: seq<Channel>, publishers: seq<Publisher>,
    offers: seq<Offering>, panicked: bool)

  datatype Action =
    | StartPublish(event: Event)
    | Send(publisher: nat, channel: nat)
    | FinishPublish(publisher: nat)
    | Subscribe(run: string, bufferSize: int)
    | Unsubscribe(channel: nat)
    | CloseBus
    | Receive(channel: nat)

  const EMPTY_BUS := Bus(map[], false, [], [], [], false)

  // --- one channel

  function Opened(run: string, bufferSize: int): Channel {
    Channel(run, if bufferSize <= 0 then 32 else bufferSize, [], false, false, 0, [], [], [], 0)
  }

  /** A send that never waits: delivered if the buffer has room, else dropped. */
  function Offer(c: Channel, e: Event): Channel {
    if |c.queue| < c.capacity then
      c.(queue := c.queue + [e], offered := c.offered + [e], accepted := c.accepted + [e])
    else c.(offered := c.offered + [e], drops := c.drops + 1)
  }

  function Shut(c: Channel): Channel {
    c.(closed := true, closes := c.closes + 1)
  }

  function Take(c: Channel): Channel {
    if c.queue == [] then c else c.(queue := c.queue[1..], received := c.received + [c.queue[0]])
  }

  function With(b: Bus, i: nat, c: Channel): Bus
    requires i < |b.channels|
  {
    b.(channels := b.channels[i := c])
  }

  // --- one step

  function SubscribersOf(b: Bus, run: string): set<nat> {
    if run in b.subscribers then b.subscribers[run] else {}
  }

  predicate WriteLockFree(b: Bus) {
    forall p :: p in b.publishers ==> p.Returned?
  }

  function Registered(b: Bus, run: string, bufferSize: int): Bus {
    var i := |b.channels|;
    if b.closed then b.(channels := b.channels + [Shut(Opened(run, bufferSize)).(unsubscribed := true)])
    else b.(channels := b.channels + [Opened(run, bufferSize)],
            subscribers := b.subscribers[run := SubscribersOf(b, run) + {i}])
  }

  function Unregistered(b: Bus, i: nat): map<string, set<nat>>
    requires i < |b.channels|
  {
    var run := b.channels[i].run;
    if run !in b.subscribers then b.subscribers
    else if b.subscribers[run] - {i} == {} then b.subscribers - {run}
    else b.subscribers[run := b.subscribers[run] - {i}]
  }

  /** The cleanup closure, which runs once. */
  function Unsubscribed(b: Bus, i: nat): Bus
    requires i < |b.channels|
  {
    var c := b.channels[i];
    if c.unsubscribed then b
    else
      var gone := b.(subscribers := Unregistered(b, i), channels := b.channels[i := c.(unsubscribed := true)]);
      if b.closed then gone
      else With(gone, i, Shut(gone.channels[i])).(panicked := b.panicked || c.closed)
  }

  predicate IsSub(b: Bus, run: string, i: nat) {
    run in b.subscribers && i in b.subscribers[run]
  }

  predicate IsSubscribed(b: Bus, i: nat)
    requires i < |b.channels|
  {
    IsSub(b, b.channels[i].run, i)
  }

  function Closed(b: Bus): Bus {
    if b.closed then b
    else
      b.(closed := true, subscribers := map[],
         channels := seq(|b.channels|, i requires 0 <= i < |b.channels| =>
           if IsSubscribed(b, i) then Shut(b.channels[i]) else b.channels[i]),
         panicked := b.panicked || exists i :: 0 <= i < |b.channels| && IsSubscribed(b, i) && b.channels[i].closed)
  }

  function Next(b: Bus, a: Action): Bus {
    match a
    case StartPublish(e) =>
      if b.closed || SubscribersOf(b, e.runId) == {} then b
      else b.(publishers := b.publishers + [Publishing(e, SubscribersOf(b, e.runId), SubscribersOf(b, e.runId))])
    case Send(p, i) =>
      if p < |b.publishers| && b.publishers[p].Publishing? && i in b.publishers[p].remaining && i < |b.channels| then
        var pub := b.publishers[p];
        var c := b.channels[i];
        With(b, i, Offer(c, pub.event)).(
          publishers := b.publishers[p := Publishing(pub.event, pub.found, pub.remaining - {i})],
          offers := b.offers + [Offering(p, i, pub.event)],
          panicked := b.panicked || c.closed)
      else b
    case FinishPublish(p) =>
      if p < |b.publishers| && b.publishers[p].Publishing? && b.publishers[p].remaining == {} then
        b.(publishers := b.publishers[p := Returned(b.publishers[p].event, b.publishers[p].found)])
      else b
    case Subscribe(run, bufferSize) => if WriteLockFree(b) then Registered(b, run, bufferSize) else b
    case Unsubscribe(i) => if WriteLockFree(b) && i < |b.channels| then Unsubscribed(b, i) else b
    case CloseBus => if WriteLockFree(b) then Closed(b) else b
    case Receive(i) => if i < |b.channels| then With(b, i, Take(b.channels[i])) else b
  }

  function Run(actions: seq<Action>): Bus {
    if actions == [] then EMPTY_BUS
    else Next(Run(actions[..|actions| - 1]), actions[|actions| - 1])
  }

  // --- the guarantees, proved from the invariant below

  /** a can be had from b by leaving events out. */
  ghost predicate Subsequence(a: seq<Event>, b: seq<Event>) {
    a == [] || (b != [] &&
      ((a[|a| - 1] == b[|b| - 1] && Subsequence(a[..|a| - 1], b[..|b| - 1])) || Subsequence(a, b[..|b| - 1])))
  }

  /** Some interleaving of the bus's operations leads here. */
  ghost predicate Reachable(b: Bus) {
    exists actions: seq<Action> :: b == Run(actions)
  }

  lemma ReachableIsInv(b: Bus)
    requires Reachable(b)
    ensures Inv(b)
  {
    var actions: seq<Action> :| b == Run(actions);
    RunKeepsInv(actions);
  }

  /** In every interleaving no send or close ever hits a closed channel, each channel is closed at most once,
      and once the bus is closed every channel is. */
  lemma ChannelsAreSafe(b: Bus)
    requires Reachable(b)
    ensures
      && !b.panicked
      && (forall i :: 0 <= i < |b.channels| ==> b.channels[i].closes <= 1)
      && (b.closed ==> forall i :: 0 <= i < |b.channels| ==> b.channels[i].closed && b.channels[i].closes == 1)
  {
    ReachableIsInv(b);
    assert forall i :: 0 <= i < |b.channels| ==> Standing(b, i) && StreamOk(b.channels[i]);
  }

  /** What a subscriber has received and still has waiting is, in order, a selection of the events of its run
      that were offered to it: every one of them exactly when none was offered while its buffer was full. */
  lemma StreamsAreSubsequences(b: Bus, i: nat)
    requires Reachable(b) && i < |b.channels|
    ensures var c := b.channels[i];
      && Subsequence(c.received + c.queue, c.offered)
      && (c.drops == 0 <==> c.received + c.queue == c.offered)
      && forall e :: e in c.offered ==> e.runId == c.run
  {
    ReachableIsInv(b);
  }

  /** The step offers an event to a channel whose buffer is full. */
  predicate HitsFull(b: Bus, a: Action, i: nat) {
    && a.Send? && a.channel == i && i < |b.channels|
    && a.publisher < |b.publishers| && b.publishers[a.publisher].Publishing?
    && i in b.publishers[a.publisher].remaining
    && |b.channels[i].queue| == b.channels[i].capacity
  }

  /** How many events were offered to a channel while its buffer was full. */
  function FullSends(actions: seq<Action>, i: nat): nat {
    if actions == [] then 0 else
      var front, a := actions[..|actions| - 1], actions[|actions| - 1];
      FullSends(front, i) + if HitsFull(Run(front), a, i) then 1 else 0
  }

  /** The events dropped are exactly those offered while the buffer was full. */
  lemma {:induction false} DroppedExactlyWhenFull(actions: seq<Action>, i: nat)
    ensures FullSends(actions, i) == if i < |Run(actions).channels| then Run(actions).channels[i].drops else 0
  {
    if actions == [] {
    } else {
      var front, a := actions[..|actions| - 1], actions[|actions| - 1];
      DroppedExactlyWhenFull(front, i);
      RunKeepsInv(front);
      DropsStep(Run(front), a, i);
    }
  }

  lemma DropsStep(b: Bus, a: Action, i: nat)
    requires Inv(b)
    ensures |b.channels| <= |Next(b, a).channels|
    ensures i < |b.channels| ==>
      Next(b, a).channels[i].drops == b.channels[i].drops + if HitsFull(b, a, i) then 1 else 0
    ensures |b.channels| <= i < |Next(b, a).channels| ==> Next(b, a).channels[i].drops == 0
  {
  }

  /** A subscriber gets what was sent in the order it was sent; its buffer holds as many events as it asked for, 32
      if it asked for none. */
  lemma BufferIsAQueue(b: Bus, p: nat, i: nat, run: string, bufferSize: int)
    requires Reachable(b)
    ensures p < |b.publishers| && b.publishers[p].Publishing? && i in b.publishers[p].remaining ==>
      && i < |b.channels|
      && Next(b, Send(p, i)).channels[i].queue ==
           b.channels[i].queue +
           if |b.channels[i].queue| < b.channels[i].capacity then [b.publishers[p].event] else []
    ensures i < |b.channels| && b.channels[i].queue != [] ==>
      var c, d := b.channels[i], Next(b, Receive(i)).channels[i];
      c.queue == [d.received[|d.received| - 1]] + d.queue
    ensures WriteLockFree(b) ==>
      var c := Next(b, Subscribe(run, bufferSize)).channels[|b.channels|];
      c.run == run && c.queue == [] && c.capacity == if bufferSize <= 0 then 32 else bufferSize
  {
    ReachableIsInv(b);
    if p < |b.publishers| && b.publishers[p].Publishing? && i in b.publishers[p].remaining {
      assert PublisherOk(b, b.publishers[p]) && IsSub(b, b.publishers[p].event.runId, i);
    }
  }

  /** Closing the bus is final: nothing published afterwards reaches anyone. */
  lemma ClosedBusOffersNothing(b: Bus, a: Action, i: nat)
    requires Reachable(b) && b.closed && i < |b.channels|
    ensures Next(b, a).closed
    ensures Next(b, a).channels[i].offered == b.channels[i].offered
  {
    ReachableIsInv(b);
  }

  /** The events offered to one channel, in order. */
  function OfferedTo(offers: seq<Offering>, channel: nat): seq<Event> {
    if offers == [] then [] else
      var front, o := offers[..|offers| - 1], offers[|offers| - 1];
      OfferedTo(front, channel) + (if o.channel == channel then [o.event] else [])
  }

  /** How often one call of Publish has offered its event to one channel. */
  function TimesOffered(offers: seq<Offering>, publisher: nat, channel: nat): nat {
    if offers == [] then 0 else
      var front, o := offers[..|offers| - 1], offers[|offers| - 1];
      TimesOffered(front, publisher, channel) + if o.publisher == publisher && o.channel == channel then 1 else 0
  }

  /** However publishers, subscribers and receivers interleave, a call of Publish that has returned has offered
      its event exactly once to every subscriber it found, and to no one else; and the streams hold nothing but
      what such calls have offered. */
  lemma PublishOffersExactlyOnce(b: Bus, p: nat)
    requires Reachable(b) && p < |b.publishers| && b.publishers[p].Returned?
    ensures forall i: nat :: TimesOffered(b.offers, p, i) == if i in b.publishers[p].found then 1 else 0
    ensures forall o :: o in b.offers && o.publisher == p ==> o.event == b.publishers[p].event
    ensures forall i :: 0 <= i < |b.channels| ==> b.channels[i].offered == OfferedTo(b.offers, i)
  {
    var actions: seq<Action> :| b == Run(actions);
    RunKeepsOffers(actions, b);
    forall i: nat
      ensures TimesOffered(b.offers, p, i) == if i in b.publishers[p].found then 1 else 0
    {
      assert Counted(b, p, i);
    }
  }

  // --- what every interleaving keeps

  lemma SubsequenceGrows(a: seq<Event>, b: seq<Event>, e: Event)
    requires Subsequence(a, b)
    ensures Subsequence(a + [e], b + [e]) && Subsequence(a, b + [e])
  {
  }

  /** Nothing is lost or invented between what was offered, accepted, dropped, queued and received. */
  ghost predicate Accounts(c: Channel) {
    && |c.queue| <= c.capacity
    && c.accepted == c.received + c.queue
    && |c.offered| == |c.accepted| + c.drops
    && (c.drops == 0 ==> c.accepted == c.offered)
    && c.closes == (if c.closed then 1 else 0)
  }

  ghost predicate StreamOk(c: Channel) {
    && Accounts(c) && Subsequence(c.accepted, c.offered)
    && forall e :: e in c.offered ==> e.runId == c.run
  }

  lemma OfferKeepsStream(c: Channel, e: Event)
    requires StreamOk(c) && e.runId == c.run
    ensures StreamOk(Offer(c, e))
  {
    OfferKeepsAccounts(c, e);
    SubsequenceGrows(c.accepted, c.offered, e);
  }

  lemma OfferKeepsAccounts(c: Channel, e: Event)
    requires Accounts(c)
    ensures Accounts(Offer(c, e))
  {
    assert c.received + c.queue + [e] == c.received + (c.queue + [e]);
  }

  lemma TakeKeepsStream(c: Channel)
    requires StreamOk(c)
    ensures StreamOk(Take(c))
  {
  }

  lemma ShutKeepsStream(c: Channel)
    requires StreamOk(c) && !c.closed
    ensures StreamOk(Shut(c)) && StreamOk(Shut(c.(unsubscribed := true)))
  {
  }

  /** Subscribed and open are the same thing; whoever is publishing publishes to open channels. */
  ghost predicate Linked(b: Bus) {
    && (forall run: string, i: nat :: IsSub(b, run, i) ==>
          i < |b.channels| && b.channels[i].run == run && !b.channels[i].closed && !b.channels[i].unsubscribed)
    && (forall i :: 0 <= i < |b.channels| ==> Standing(b, i))
    && (b.closed ==> b.subscribers == map[])
  }

  /** Not subscribed means closed; and while the bus is open, only unsubscribing closes a channel. */
  ghost predicate Standing(b: Bus, i: nat)
    requires i < |b.channels|
  {
    && (b.channels[i].closed || IsSubscribed(b, i))
    && (b.channels[i].closed ==> b.closed || b.channels[i].unsubscribed)
  }

  ghost predicate PublisherOk(b: Bus, pub: Publisher) {
    pub.Publishing? ==> forall i: nat :: i in pub.remaining ==> IsSub(b, pub.event.runId, i)
  }

  ghost predicate Safe(b: Bus) {
    && !b.panicked && Linked(b)
    && forall p :: 0 <= p < |b.publishers| ==> PublisherOk(b, b.publishers[p])
  }

  ghost predicate StreamsOk(b: Bus) {
    forall i :: 0 <= i < |b.channels| ==> StreamOk(b.channels[i])
  }

  ghost predicate Inv(b: Bus) {
    Safe(b) && StreamsOk(b)
  }

  ghost predicate SameStanding(c: Channel, d: Channel) {
    c.run == d.run && c.closed == d.closed && c.unsubscribed == d.unsubscribed
  }

  /** Sends and receives leave who is subscribed and open as it was. */
  lemma TrafficKeepsLinked(b: Bus, i: nat, c: Channel)
    requires Linked(b) && i < |b.channels| && SameStanding(b.channels[i], c)
    ensures Linked(With(b, i, c))
  {
    var d := With(b, i, c);
    forall k | 0 <= k < |d.channels|
      ensures Standing(d, k)
    {
      assert Standing(b, k);
    }
    forall run: string, k: nat | IsSub(d, run, k)
      ensures k < |d.channels| && d.channels[k].run == run && !d.channels[k].closed && !d.channels[k].unsubscribed
    {
      assert IsSub(b, run, k);
    }
  }

  lemma NoPublishers(b: Bus)
    requires WriteLockFree(b)
    ensures forall p :: 0 <= p < |b.publishers| ==> b.publishers[p].Returned?
  {
  }

  lemma SendIsSafe(b: Bus, p: nat, i: nat)
    requires Safe(b)
    ensures Safe(Next(b, Send(p, i)))
  {
    if p < |b.publishers| && b.publishers[p].Publishing? && i in b.publishers[p].remaining && i < |b.channels| {
      var pub := b.publishers[p];
      assert PublisherOk(b, pub) && IsSub(b, pub.event.runId, i);
      TrafficKeepsLinked(b, i, Offer(b.channels[i], pub.event));
      var d := Next(b, Send(p, i));
      SamePublishing(With(b, i, Offer(b.channels[i], pub.event)), d);
      forall q | 0 <= q < |d.publishers|
        ensures PublisherOk(d, d.publishers[q])
      {
        assert PublisherOk(b, b.publishers[q]);
      }
    }
  }

  lemma RegisterIsSafe(b: Bus, run: string, bufferSize: int)
    requires Safe(b) && WriteLockFree(b)
    ensures Safe(Registered(b, run, bufferSize))
  {
    NoPublishers(b);
    var d, n := Registered(b, run, bufferSize), |b.channels|;
    forall r: string, i: nat | IsSub(d, r, i)
      ensures i < |d.channels| && d.channels[i].run == r && !d.channels[i].closed && !d.channels[i].unsubscribed
    {
      assert IsSub(b, r, i) || (i == n && r == run);
    }
    forall i | 0 <= i < |d.channels|
      ensures Standing(d, i)
    {
      assert i < n ==> Standing(b, i);
    }
  }

  lemma UnregisterIsSafe(b: Bus, i: nat)
    requires Safe(b) && WriteLockFree(b) && i < |b.channels|
    ensures Safe(Unsubscribed(b, i))
  {
    NoPublishers(b);
    var d, run := Unsubscribed(b, i), b.channels[i].run;
    assert Standing(b, i);
    if !b.channels[i].unsubscribed {
      forall r: string, k: nat | IsSub(d, r, k)
        ensures IsSub(b, r, k) && k != i
      {
        assert IsSub(b, r, k);
        assert IsSub(b, r, i) ==> r == run;
      }
      forall k | 0 <= k < |d.channels|
        ensures Standing(d, k)
      {
        assert Standing(b, k);
        assert IsSubscribed(b, k) && k != i ==> k in b.subscribers[b.channels[k].run] - {i};
      }
    }
  }

  lemma CloseIsSafe(b: Bus)
    requires Safe(b) && WriteLockFree(b)
    ensures Safe(Closed(b))
  {
    NoPublishers(b);
    var d := Closed(b);
    forall i | 0 <= i < |b.channels|
      ensures Standing(d, i) && !(IsSubscribed(b, i) && b.channels[i].closed)
    {
      assert Standing(b, i);
    }
  }

  lemma NextIsSafe(b: Bus, a: Action)
    requires Safe(b)
    ensures Safe(Next(b, a))
  {
    match a
    case StartPublish(e) => StartIsSafe(b, e);
    case Send(p, i) => SendIsSafe(b, p, i);
    case FinishPublish(p) => FinishIsSafe(b, p);
    case Subscribe(run, bufferSize) => if WriteLockFree(b) { RegisterIsSafe(b, run, bufferSize); }
    case Unsubscribe(i) => if WriteLockFree(b) && i < |b.channels| { UnregisterIsSafe(b, i); }
    case CloseBus => if WriteLockFree(b) { CloseIsSafe(b); }
    case Receive(i) => if i < |b.channels| { ReceiveIsSafe(b, i); }
  }

  lemma StartIsSafe(b: Bus, e: Event)
    requires Safe(b)
    ensures Safe(Next(b, StartPublish(e)))
  {
    var d := Next(b, StartPublish(e));
    SamePublishing(b, d);
    forall p | 0 <= p < |d.publishers|
      ensures PublisherOk(d, d.publishers[p])
    {
      assert p < |b.publishers| ==> PublisherOk(b, b.publishers[p]);
    }
  }

  lemma FinishIsSafe(b: Bus, p: nat)
    requires Safe(b)
    ensures Safe(Next(b, FinishPublish(p)))
  {
    var d := Next(b, FinishPublish(p));
    SamePublishing(b, d);
    forall q | 0 <= q < |d.publishers|
      ensures PublisherOk(d, d.publishers[q])
    {
      assert PublisherOk(b, b.publishers[q]);
    }
  }

  /** Only publishers and what they have offered differ. */
  lemma SamePublishing(b: Bus, d: Bus)
    requires Linked(b) && d == b.(publishers := d.publishers, offers := d.offers)
    ensures Linked(d)
  {
    forall i | 0 <= i < |d.channels|
      ensures Standing(d, i)
    {
      assert Standing(b, i);
    }
    forall run: string, k: nat | IsSub(d, run, k)
      ensures k < |d.channels| && d.channels[k].run == run && !d.channels[k].closed && !d.channels[k].unsubscribed
    {
      assert IsSub(b, run, k);
    }
  }

  lemma ReceiveIsSafe(b: Bus, i: nat)
    requires Safe(b) && i < |b.channels|
    ensures Safe(Next(b, Receive(i)))
  {
    TrafficKeepsLinked(b, i, Take(b.channels[i]));
    var d := Next(b, Receive(i));
    forall q | 0 <= q < |d.publishers|
      ensures PublisherOk(d, d.publishers[q])
    {
      assert PublisherOk(b, b.publishers[q]);
    }
  }

  /** What one step does to one channel's stream. */
  lemma NextKeepsStream(b: Bus, a: Action, i: nat)
    requires Safe(b) && StreamsOk(b) && i < |Next(b, a).channels|
    ensures StreamOk(Next(b, a).channels[i])
  {
    if i < |b.channels| {
      var c := b.channels[i];
      match a
      case Send(p, k) =>
        if k == i && p < |b.publishers| && b.publishers[p].Publishing? && i in b.publishers[p].remaining {
          assert PublisherOk(b, b.publishers[p]) && IsSub(b, b.publishers[p].event.runId, i);
          OfferKeepsStream(c, b.publishers[p].event);
        }
      case Unsubscribe(k) =>
        if k == i && !c.unsubscribed && !b.closed {
          assert Standing(b, i);
          ShutKeepsStream(c);
        }
      case CloseBus =>
        if IsSubscribed(b, i) { ShutKeepsStream(c); }
      case Receive(k) => TakeKeepsStream(c);
      case StartPublish(_) =>
      case FinishPublish(_) =>
      case Subscribe(_, _) =>
    }
  }

  lemma NextKeepsInv(b: Bus, a: Action)
    requires Inv(b)
    ensures Inv(Next(b, a))
  {
    NextIsSafe(b, a);
    forall i | 0 <= i < |Next(b, a).channels|
      ensures StreamOk(Next(b, a).channels[i])
    {
      NextKeepsStream(b, a, i);
    }
  }

  lemma {:induction false} RunKeepsInv(actions: seq<Action>)
    ensures Inv(Run(actions))
  {
    if actions == [] {
    } else {
      RunKeepsInv(actions[..|actions| - 1]);
      NextKeepsInv(Run(actions[..|actions| - 1]), actions[|actions| - 1]);
    }
  }

  // --- the history of sends

  ghost predicate Counted(b: Bus, p: nat, i: nat)
    requires p < |b.publishers|
  {
    var pub := b.publishers[p];
    TimesOffered(b.offers, p, i) ==
      if i in pub.found && !(pub.Publishing? && i in pub.remaining) then 1 else 0
  }

  ghost predicate OffersMatch(b: Bus) {
    && (forall p: nat, i: nat :: p < |b.publishers| ==> Counted(b, p, i))
    && (forall p :: 0 <= p < |b.publishers| && b.publishers[p].Publishing? ==>
          b.publishers[p].remaining <= b.publishers[p].found)
    && (forall k :: 0 <= k < |b.offers| ==>
          && b.offers[k].publisher < |b.publishers| && b.offers[k].channel < |b.channels|
          && b.offers[k].event == b.publishers[b.offers[k].publisher].event)
    && forall i :: 0 <= i < |b.channels| ==> b.channels[i].offered == OfferedTo(b.offers, i)
  }

  lemma {:induction false} NothingOfferedYet(offers: seq<Offering>, p: nat, i: nat)
    requires forall k :: 0 <= k < |offers| ==> offers[k].publisher != p || offers[k].channel != i
    ensures TimesOffered(offers, p, i) == 0
  {
    if offers == [] {
    } else {
      NothingOfferedYet(offers[..|offers| - 1], p, i);
    }
  }

  lemma {:induction false} NothingOfferedTo(offers: seq<Offering>, i: nat)
    requires forall k :: 0 <= k < |offers| ==> offers[k].channel != i
    ensures OfferedTo(offers, i) == []
  {
    if offers == [] {
    } else {
      NothingOfferedTo(offers[..|offers| - 1], i);
    }
  }

  lemma OneMoreOffer(offers: seq<Offering>, o: Offering, p: nat, i: nat)
    ensures TimesOffered(offers + [o], p, i) ==
      TimesOffered(offers, p, i) + if o.publisher == p && o.channel == i then 1 else 0
    ensures OfferedTo(offers + [o], i) == OfferedTo(offers, i) + if o.channel == i then [o.event] else []
  {
    assert (offers + [o])[..|offers|] == offers;
  }

  lemma SendKeepsOffers(b: Bus, p: nat, i: nat)
    requires OffersMatch(b)
    ensures OffersMatch(Next(b, Send(p, i)))
  {
    var d := Next(b, Send(p, i));
    if p < |b.publishers| && b.publishers[p].Publishing? && i in b.publishers[p].remaining && i < |b.channels| {
      var o := Offering(p, i, b.publishers[p].event);
      forall q: nat, k: nat | q < |d.publishers|
        ensures Counted(d, q, k)
      {
        assert Counted(b, q, k);
        OneMoreOffer(b.offers, o, q, k);
      }
      forall k | 0 <= k < |d.channels|
        ensures d.channels[k].offered == OfferedTo(d.offers, k)
      {
        OneMoreOffer(b.offers, o, p, k);
      }
    }
  }

  lemma StartKeepsOffers(b: Bus, e: Event)
    requires OffersMatch(b)
    ensures OffersMatch(Next(b, StartPublish(e)))
  {
    var d := Next(b, StartPublish(e));
    forall q: nat, k: nat | q < |d.publishers|
      ensures Counted(d, q, k)
    {
      if q < |b.publishers| {
        assert Counted(b, q, k);
      } else {
        NothingOfferedYet(b.offers, q, k);
      }
    }
  }

  lemma FinishKeepsOffers(b: Bus, p: nat)
    requires OffersMatch(b)
    ensures OffersMatch(Next(b, FinishPublish(p)))
  {
    var d := Next(b, FinishPublish(p));
    forall q: nat, k: nat | q < |d.publishers|
      ensures Counted(d, q, k)
    {
      assert Counted(b, q, k);
    }
  }

  /** Steps that send nothing and start or finish no publisher. */
  lemma QuietKeepsOffers(b: Bus, d: Bus)
    requires OffersMatch(b) && d.publishers == b.publishers && d.offers == b.offers && |d.channels| >= |b.channels|
    requires forall i :: 0 <= i < |d.channels| ==>
      d.channels[i].offered == if i < |b.channels| then b.channels[i].offered else []
    ensures OffersMatch(d)
  {
    forall q: nat, k: nat | q < |d.publishers|
      ensures Counted(d, q, k)
    {
      assert Counted(b, q, k);
    }
    forall i | |b.channels| <= i < |d.channels|
      ensures OfferedTo(d.offers, i) == []
    {
      NothingOfferedTo(d.offers, i);
    }
  }

  lemma NextKeepsOffers(b: Bus, a: Action)
    requires OffersMatch(b)
    ensures OffersMatch(Next(b, a))
  {
    match a
    case StartPublish(e) => StartKeepsOffers(b, e);
    case Send(p, i) => SendKeepsOffers(b, p, i);
    case FinishPublish(p) => FinishKeepsOffers(b, p);
    case Subscribe(_, _) => QuietKeepsOffers(b, Next(b, a));
    case Unsubscribe(_) => QuietKeepsOffers(b, Next(b, a));
    case CloseBus => QuietKeepsOffers(b, Next(b, a));
    case Receive(_) => QuietKeepsOffers(b, Next(b, a));
  }

  lemma {:induction false} RunKeepsOffers(actions: seq<Action>, b: Bus)
    requires b == Run(actions)
    ensures OffersMatch(b)
  {
    if actions == [] {
    } else {
      var before := Run(actions[..|actions| - 1]);
      RunKeepsOffers(actions[..|actions| - 1], before);
      NextKeepsOffers(before, actions[|actions| - 1]);
    }
  }

  // --- what the bus object's loops keep

  lemma OfferKeepsInv(b: Bus, i: nat, e: Event)
    requires Inv(b) && b.publishers == [] && IsSub(b, e.runId, i)
    ensures i < |b.channels| && Inv(With(b, i, Offer(b.channels[i], e)))
  {
    var d := With(b, i, Offer(b.channels[i], e));
    TrafficKeepsLinked(b, i, Offer(b.channels[i], e));
    forall k | 0 <= k < |d.channels|
      ensures StreamOk(d.channels[k])
    {
      if k == i { OfferKeepsStream(b.channels[i], e); }
    }
  }

  /** The subscribed channels are shut, but for those of the given runs and the given channels. */
  ghost predicate ShutExcept(before: Bus, now: seq<Channel>, runs: set<string>, left: set<nat>) {
    |now| == |before.channels| &&
    forall k :: 0 <= k < |now| ==>
      now[k] == if IsSubscribed(before, k) && before.channels[k].run !in runs && k !in left
                then Shut(before.channels[k]) else before.channels[k]
  }

  /** The event's subscribers have been offered it, but for the given channels. */
  ghost predicate OfferedExcept(before: Bus, now: seq<Channel>, e: Event, left: set<nat>) {
    |now| == |before.channels| &&
    forall i :: 0 <= i < |now| ==>
      now[i] == if IsSub(before, e.runId, i) && i !in left then Offer(before.channels[i], e) else before.channels[i]
  }

  lemma OfferNext(before: Bus, b: Bus, e: Event, left: set<nat>, i: nat)
    requires Inv(b) && b == before.(channels := b.channels) && b.publishers == []
    requires IsSub(b, e.runId, i) && i in left && OfferedExcept(before, b.channels, e, left)
    ensures i < |b.channels| && Inv(With(b, i, Offer(b.channels[i], e)))
    ensures OfferedExcept(before, With(b, i, Offer(b.channels[i], e)).channels, e, left - {i})
  {
    OfferKeepsInv(b, i, e);
  }

  // --- the bus object, one lock holder at a time

  class LiveBus {
    var subscribers: map<string, set<nat>>
    var closed: bool
    var channels: seq<Channel>

    ghost function View(): Bus
      reads this
    {
      Bus(subscribers, closed, channels, [], [], false)
    }

    constructor ()
      ensures View() == EMPTY_BUS && Inv(View())
    {
      subscribers, closed, channels := map[], false, [];
    }

    /** Every subscriber of the event's run is offered it exactly once, and no one else is. */
    method Publish(e: Event)
      requires Inv(View())
      modifies `channels
      ensures Inv(View()) && |channels| == |old(channels)|
      ensures forall i :: 0 <= i < |channels| ==>
        channels[i] == if IsSub(old(View()), e.runId, i) then Offer(old(channels)[i], e) else old(channels)[i]
    {
      if closed || e.runId !in subscribers || |subscribers[e.runId]| == 0 {
        return;
      }
      var left := subscribers[e.runId];
      while left != {}
        invariant left <= subscribers[e.runId]
        invariant Inv(View()) && |channels| == |old(channels)|
        invariant OfferedExcept(old(View()), channels, e, left)
        decreases left
      {
        var i :| i in left;
        OfferNext(old(View()), View(), e, left, i);
        channels := channels[i := Offer(channels[i], e)];
        left := left - {i};
      }
    }

    method SubscribeTo(run: string, bufferSize: int) returns (channel: nat)
      requires Inv(View())
      modifies this
      ensures View() == Registered(old(View()), run, bufferSize) && Inv(View())
      ensures channel == |old(channels)|
    {
      NextKeepsInv(View(), Subscribe(run, bufferSize));
      channel := |channels|;
      if closed {
        channels := channels + [Shut(Opened(run, bufferSize)).(unsubscribed := true)];
        return;
      }
      if run !in subscribers {
        subscribers := subscribers[run := {}];
      }
      channels := channels + [Opened(run, bufferSize)];
      subscribers := subscribers[run := subscribers[run] + {channel}];
    }

    method UnsubscribeFrom(channel: nat)
      requires Inv(View()) && channel < |channels|
      modifies this
      ensures View() == Unsubscribed(old(View()), channel) && Inv(View())
    {
      NextKeepsInv(View(), Unsubscribe(channel));
      var c := channels[channel];
      if c.unsubscribed {
        return;
      }
      channels := channels[channel := c.(unsubscribed := true)];
      if c.run in subscribers {
        var subs := subscribers[c.run] - {channel};
        subscribers := if subs == {} then subscribers - {c.run} else subscribers[c.run := subs];
      }
      if !closed {
        channels := channels[channel := Shut(channels[channel])];
      }
    }

    method Close()
      requires Inv(View())
      modifies this
      ensures View() == Closed(old(View())) && Inv(View())
    {
      assert WriteLockFree(View());
      NextKeepsInv(View(), CloseBus);
      if closed {
        return;
      }
      closed := true;
      ghost var before := old(View());
      var runs := subscribers.Keys;
      while runs != {}
        invariant closed && subscribers == before.subscribers && runs <= subscribers.Keys
        invariant ShutExcept(before, channels, runs, {})
        decreases runs
      {
        var run :| run in runs;
        CloseAll(run, before, runs);
        runs := runs - {run};
      }
      subscribers := map[];
      assert channels == Closed(before).channels;
      assert !Closed(before).panicked;
    }

    /** Closes the channels of one run. */
    method CloseAll(run: string, ghost before: Bus, ghost runs: set<string>)
      requires Linked(before) && subscribers == before.subscribers && run in runs && run in subscribers
      requires ShutExcept(before, channels, runs, {})
      modifies `channels
      ensures ShutExcept(before, channels, runs - {run}, {})
    {
      var left := subscribers[run];
      assert forall k: nat :: k in left ==> IsSub(before, run, k);
      while left != {}
        invariant left <= subscribers[run]
        invariant ShutExcept(before, channels, runs - {run}, left)
        decreases left
      {
        var i :| i in left;
        assert IsSub(before, run, i);
        channels := channels[i := Shut(channels[i])];
        left := left - {i};
      }
    }
  }
}
