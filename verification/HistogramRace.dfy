/** The lock-free side of the histogram (pkg/loadengine/metrics.go): any number of concurrent recordings and
    percentile scans, interleaved at every atomic operation. */
module HistogramRace {
  import opened Counting
  import opened Histogram

  /** The atomic operation a recording is about to perform. */
  datatype Pc =
    | ToBucket | ToCount | ToSum
    | ToLoadMin | ToCasMin(seen: nat)
    | ToLoadMax | ToCasMax(seen: nat)
    | Finished

  datatype Recorder = Recorder(micros: nat, pc: Pc)

  /** The percentile asked for, and the total the call has loaded. */
  datatype Call = Call(p: real, total: nat)

  /** A percentile call with 0 < p < 100. `start` and `seen` remember the bucket counts at the moment the total
      was loaded, and the latencies that made them up; the call itself never looks at
      either, nor, once it has its rank, at `call`. */
  datatype Reader =
    | ToLoadCount(p: real)
    | Scanning(call: Call, rank: int, next: nat, cumulative: nat, start: seq<nat>, seen: seq<nat>)
    | Returned(v: nat, idx: nat, call: Call, rank: int, start: seq<nat>, seen: seq<nat>)
    | NothingRecorded
    | FellThrough

  datatype World = World(h: Shared, recorders: seq<Recorder>, readers: seq<Reader>)

  datatype Action =
    | StartRecord(micros: nat)
    | RecordStep(i: nat)
    | StartPercentile(p: real)
    | ReadStep(j: nat)

  ghost function Empty(): Shared {
    Shared(seq(TOTAL_BUCKETS, _ => 0), 0, 0, MAX_UINT64, 0)
  }

  // --- one atomic operation

  ghost function RecordShared(h: Shared, r: Recorder): Shared
    requires |h.buckets| == TOTAL_BUCKETS
  {
    match r.pc
    case ToBucket => h.(buckets := h.buckets[BucketIndex(r.micros) := h.buckets[BucketIndex(r.micros)] + 1])
    case ToCount => h.(count := h.count + 1)
    case ToSum => h.(sumMicros := h.sumMicros + r.micros)
    case ToCasMin(seen) => if h.minMicros == seen then h.(minMicros := r.micros) else h
    case ToCasMax(seen) => if h.maxMicros == seen then h.(maxMicros := r.micros) else h
    case _ => h
  }

  ghost function RecordPc(h: Shared, r: Recorder): Pc {
    match r.pc
    case ToBucket => ToCount
    case ToCount => ToSum
    case ToSum => ToLoadMin
    case ToLoadMin => if r.micros >= h.minMicros then ToLoadMax else ToCasMin(h.minMicros)
    case ToCasMin(seen) => if h.minMicros == seen then ToLoadMax else ToLoadMin
    case ToLoadMax => if r.micros <= h.maxMicros then Finished else ToCasMax(h.maxMicros)
    case ToCasMax(seen) => if h.maxMicros == seen then Finished else ToLoadMax
    case Finished => Finished
  }

  /** The latencies already added to their buckets. */
  ghost function Bucketed(rs: seq<Recorder>): seq<nat> {
    if rs == [] then [] else
      var front, r := rs[..|rs| - 1], rs[|rs| - 1];
      Bucketed(front) + (if Bumped(r) then [r.micros] else [])
  }

  ghost function ReadNext(h: Shared, rs: seq<Recorder>, rd: Reader): Reader
    requires |h.buckets| == TOTAL_BUCKETS
  {
    match rd
    case ToLoadCount(p) =>
      if h.count == 0 then NothingRecorded
      else Scanning(Call(p, h.count), Rank(p, h.count), 0, 0, h.buckets, Bucketed(rs))
    case Scanning(call, rank, next, cumulative, start, seen) =>
      if next >= TOTAL_BUCKETS then FellThrough
      else if h.buckets[next] == 0 then Scanning(call, rank, next + 1, cumulative, start, seen)
      else if cumulative + h.buckets[next] >= rank then Returned(BucketToMicros(next), next, call, rank, start, seen)
      else Scanning(call, rank, next + 1, cumulative + h.buckets[next], start, seen)
    case _ => rd
  }

  ghost function Next(w: World, a: Action): World
    requires |w.h.buckets| == TOTAL_BUCKETS
  {
    match a
    case StartRecord(micros) =>
      if micros < MAX_UINT64 then w.(recorders := w.recorders + [Recorder(micros, ToBucket)]) else w
    case RecordStep(i) =>
      if i < |w.recorders| then
        var r := w.recorders[i];
        w.(h := RecordShared(w.h, r), recorders := w.recorders[i := r.(pc := RecordPc(w.h, r))])
      else w
    case StartPercentile(p) =>
      if 0.0 < p < 100.0 then w.(readers := w.readers + [ToLoadCount(p)]) else w
    case ReadStep(j) =>
      if j < |w.readers| then w.(readers := w.readers[j := ReadNext(w.h, w.recorders, w.readers[j])]) else w
  }

  /** The world after any sequence of atomic operations. */
  ghost function Run(actions: seq<Action>): (w: World)
    ensures |w.h.buckets| == TOTAL_BUCKETS
  {
    if actions == [] then World(Empty(), [], [])
    else Next(Run(actions[..|actions| - 1]), actions[|actions| - 1])
  }

  // --- what every interleaving keeps

  ghost predicate Bumped(r: Recorder) { r.pc != ToBucket }
  ghost predicate Counted(r: Recorder) { Bumped(r) && r.pc != ToCount }
  ghost predicate Summed(r: Recorder) { Counted(r) && r.pc != ToSum }
  ghost predicate PastMin(r: Recorder) { r.pc.ToLoadMax? || r.pc.ToCasMax? || r.pc.Finished? }

  ghost function InBucketNow(idx: nat): Recorder -> nat {
    r => if Bumped(r) && BucketIndex(r.micros) == idx then 1 else 0
  }

  ghost function BumpedNow(): Recorder -> nat {
    r => if Bumped(r) then 1 else 0
  }

  ghost function CountedNow(): Recorder -> nat {
    r => if Counted(r) then 1 else 0
  }

  ghost function SummedNow(): Recorder -> nat {
    r => if Summed(r) then r.micros else 0
  }

  ghost predicate TotalsMatch(h: Shared, rs: seq<Recorder>) {
    && |h.buckets| == TOTAL_BUCKETS
    && (forall i :: 0 <= i < TOTAL_BUCKETS ==> h.buckets[i] == Tally(rs, InBucketNow(i)))
    && SumN(h.buckets) == Tally(rs, BumpedNow())
    && h.count == Tally(rs, CountedNow())
    && h.sumMicros == Tally(rs, SummedNow())
  }

  ghost predicate Recorded(rs: seq<Recorder>, x: nat) {
    exists i :: 0 <= i < |rs| && rs[i].micros == x
  }

  ghost predicate ExtremesMatch(h: Shared, rs: seq<Recorder>) {
    && (h.minMicros == MAX_UINT64 || Recorded(rs, h.minMicros))
    && (h.maxMicros == 0 || Recorded(rs, h.maxMicros))
    && forall i :: 0 <= i < |rs| ==>
         && rs[i].micros < MAX_UINT64
         && (PastMin(rs[i]) ==> h.minMicros <= rs[i].micros)
         && (rs[i].pc.Finished? ==> rs[i].micros <= h.maxMicros)
         && (rs[i].pc.ToCasMin? ==> rs[i].micros < rs[i].pc.seen)
         && (rs[i].pc.ToCasMax? ==> rs[i].micros > rs[i].pc.seen)
  }

  ghost predicate NoneShrank(start: seq<nat>, now: seq<nat>) {
    |start| == |now| == TOTAL_BUCKETS && forall i :: 0 <= i < TOTAL_BUCKETS ==> start[i] <= now[i]
  }

  /** A scan still has enough in front of it to reach its rank, and has counted, bucket for bucket, no less
      than was there when it began and no more than is there now. */
  ghost predicate OnTrack(h: Shared, rd: Reader)
    requires |h.buckets| == TOTAL_BUCKETS
  {
    match rd
    case ToLoadCount(p) => 0.0 < p < 100.0
    case Scanning(call, rank, next, cumulative, start, seen) =>
      && next <= TOTAL_BUCKETS && NoneShrank(start, h.buckets) && CountsOf(start, seen)
      && cumulative < rank <= cumulative + SumN(h.buckets[next..])
      && 1 <= rank <= SumN(start)
      && SumN(start[..next]) <= cumulative <= SumN(h.buckets[..next])
    case Returned(v, idx, call, rank, start, seen) =>
      && idx < TOTAL_BUCKETS && v == BucketToMicros(idx) && NoneShrank(start, h.buckets) && CountsOf(start, seen)
      && 1 <= rank <= SumN(start)
      && SumN(start[..idx]) < rank <= SumN(h.buckets[..idx + 1])
    case NothingRecorded => true
    case FellThrough => false
  }

  ghost predicate Inv(w: World) {
    && TotalsMatch(w.h, w.recorders)
    && ExtremesMatch(w.h, w.recorders)
    && forall j :: 0 <= j < |w.readers| ==> OnTrack(w.h, w.readers[j])
  }

  lemma {:induction false} RunKeepsInv(actions: seq<Action>, w: World)
    requires w == Run(actions)
    ensures Inv(w)
  {
    if actions == [] {
      TallyZero(Empty().buckets, (x: nat) => x);
    } else {
      var before := Run(actions[..|actions| - 1]);
      RunKeepsInv(actions[..|actions| - 1], before);
      NextKeepsInv(before, actions[|actions| - 1]);
    }
  }

  lemma NextKeepsInv(w: World, a: Action)
    requires Inv(w)
    ensures Inv(Next(w, a))
  {
    match a
    case StartRecord(micros) =>
      if micros < MAX_UINT64 { StartKeepsInv(w, micros); }
    case RecordStep(i) =>
      if i < |w.recorders| { RecordKeepsInv(w, i); }
    case StartPercentile(p) =>
    case ReadStep(j) =>
      if j < |w.readers| { ReadKeepsTrack(w, w.readers[j]); }
  }

  lemma StartKeepsInv(w: World, micros: nat)
    requires Inv(w) && micros < MAX_UINT64
    ensures Inv(Next(w, StartRecord(micros)))
  {
    TotalsStart(w.h, w.recorders, micros);
    RecordedGrows(w.recorders, w.recorders + [Recorder(micros, ToBucket)]);
  }

  lemma TotalsStart(h: Shared, rs: seq<Recorder>, micros: nat)
    requires TotalsMatch(h, rs)
    ensures TotalsMatch(h, rs + [Recorder(micros, ToBucket)])
  {
  }

  lemma RecordedGrows(rs: seq<Recorder>, more: seq<Recorder>)
    requires |rs| <= |more| && forall i :: 0 <= i < |rs| ==> more[i].micros == rs[i].micros
    ensures forall x :: Recorded(rs, x) ==> Recorded(more, x)
  {
  }

  lemma RecordKeepsInv(w: World, i: nat)
    requires Inv(w) && i < |w.recorders|
    ensures Inv(Next(w, RecordStep(i)))
  {
    var h, rs, r := w.h, w.recorders, w.recorders[i];
    var h', r' := RecordShared(h, r), r.(pc := RecordPc(h, r));
    TotalsStep(h, rs, i);
    ExtremesStep(h, rs, i);
    forall j | 0 <= j < |w.readers|
      ensures OnTrack(h', w.readers[j])
    {
      var rd := w.readers[j];
      if rd.Scanning? {
        BucketsOnlyGrow(h, r, rd.next);
      } else if rd.Returned? {
        BucketsOnlyGrow(h, r, rd.idx + 1);
      }
    }
  }

  lemma TotalsStep(h: Shared, rs: seq<Recorder>, i: nat)
    requires TotalsMatch(h, rs) && i < |rs|
    ensures TotalsMatch(RecordShared(h, rs[i]), rs[i := rs[i].(pc := RecordPc(h, rs[i]))])
  {
    var r := rs[i];
    var r' := r.(pc := RecordPc(h, r));
    forall b | 0 <= b < TOTAL_BUCKETS
      ensures RecordShared(h, r).buckets[b] == Tally(rs[i := r'], InBucketNow(b))
    {
      BucketStep(h, rs, i, b);
    }
    TallyUpdate(rs, i, r', BumpedNow());
    TallyUpdate(rs, i, r', CountedNow());
    TallyUpdate(rs, i, r', SummedNow());
    if r.pc == ToBucket {
      var b := BucketIndex(r.micros);
      TallyUpdate(h.buckets, b, h.buckets[b] + 1, (x: nat) => x);
    }
  }

  lemma BucketStep(h: Shared, rs: seq<Recorder>, i: nat, b: nat)
    requires TotalsMatch(h, rs) && i < |rs| && b < TOTAL_BUCKETS
    ensures RecordShared(h, rs[i]).buckets[b] == Tally(rs[i := rs[i].(pc := RecordPc(h, rs[i]))], InBucketNow(b))
  {
    TallyUpdate(rs, i, rs[i].(pc := RecordPc(h, rs[i])), InBucketNow(b));
  }

  lemma ExtremesStep(h: Shared, rs: seq<Recorder>, i: nat)
    requires |h.buckets| == TOTAL_BUCKETS
    requires ExtremesMatch(h, rs) && i < |rs|
    ensures ExtremesMatch(RecordShared(h, rs[i]), rs[i := rs[i].(pc := RecordPc(h, rs[i]))])
  {
    var rs' := rs[i := rs[i].(pc := RecordPc(h, rs[i]))];
    RecordedGrows(rs, rs');
    assert rs'[i].micros == rs[i].micros;
  }

  lemma BucketsOnlyGrow(h: Shared, r: Recorder, n: nat)
    requires |h.buckets| == TOTAL_BUCKETS && n <= TOTAL_BUCKETS
    ensures NoneShrank(h.buckets, RecordShared(h, r).buckets)
    ensures SumN(h.buckets[n..]) <= SumN(RecordShared(h, r).buckets[n..])
    ensures SumN(h.buckets[..n]) <= SumN(RecordShared(h, r).buckets[..n])
  {
    var after := RecordShared(h, r).buckets;
    LargerSum(h.buckets[n..], after[n..]);
    LargerSum(h.buckets[..n], after[..n]);
  }

  lemma {:induction false} LargerSum(a: seq<nat>, b: seq<nat>)
    requires |a| == |b| && forall i :: 0 <= i < |a| ==> a[i] <= b[i]
    ensures SumN(a) <= SumN(b)
  {
    if a == [] {
    } else {
      LargerSum(a[..|a| - 1], b[..|b| - 1]);
    }
  }

  lemma ReadKeepsTrack(w: World, rd: Reader)
    requires Inv(w) && OnTrack(w.h, rd)
    ensures OnTrack(w.h, ReadNext(w.h, w.recorders, rd))
  {
    if rd.ToLoadCount? && w.h.count > 0 {
      RankInRange(rd.p, w.h.count);
      TallyAtMost(w.recorders, CountedNow(), BumpedNow());
      BucketsCountBucketed(w.h, w.recorders);
      assert w.h.buckets[0..] == w.h.buckets;
    } else if rd.Scanning? {
      ScanStep(w.h, w.recorders, rd.call, rd.rank, rd.next, rd.cumulative, rd.start, rd.seen);
    }
  }

  /** At every moment the buckets count the latencies already added to them. */
  lemma BucketsCountBucketed(h: Shared, rs: seq<Recorder>)
    requires TotalsMatch(h, rs)
    ensures CountsOf(h.buckets, Bucketed(rs))
  {
    forall b | 0 <= b < TOTAL_BUCKETS
      ensures h.buckets[b] == Tally(Bucketed(rs), InBucket(b))
    {
      BucketedTally(rs, b);
    }
  }

  lemma {:induction false} BucketedTally(rs: seq<Recorder>, b: nat)
    ensures Tally(Bucketed(rs), InBucket(b)) == Tally(rs, InBucketNow(b))
  {
    if rs == [] {
    } else {
      var front, r := rs[..|rs| - 1], rs[|rs| - 1];
      BucketedTally(front, b);
      TallySnoc(Bucketed(front), r.micros, InBucket(b));
      assert Bucketed(front) + [] == Bucketed(front);
    }
  }

  lemma ScanStep(h: Shared, rs: seq<Recorder>, call: Call, rank: int, next: nat, cumulative: nat, start: seq<nat>,
                 seen: seq<nat>)
    requires |h.buckets| == TOTAL_BUCKETS && OnTrack(h, Scanning(call, rank, next, cumulative, start, seen))
    ensures OnTrack(h, ReadNext(h, rs, Scanning(call, rank, next, cumulative, start, seen)))
  {
    assert |h.buckets[next..]| == TOTAL_BUCKETS - next;
    if next < TOTAL_BUCKETS {
      SumFromFront(h.buckets[next..]);
      assert h.buckets[next..][1..] == h.buckets[next + 1..];
      SumToBack(h.buckets, next);
      SumToBack(start, next);
    }
  }

  lemma SumFromFront(s: seq<nat>)
    requires s != []
    ensures SumN(s) == s[0] + SumN(s[1..])
  {
    assert s == [s[0]] + s[1..];
    TallyAppend([s[0]], s[1..], (x: nat) => x);
    assert [s[0]][..0] == [];
  }

  // --- the main results

  /** Some interleaving of atomic operations leads here. */
  ghost predicate Reachable(w: World) {
    exists actions: seq<Action> :: w == Run(actions)
  }

  lemma ReachableIsInv(w: World)
    requires Reachable(w)
    ensures Inv(w)
  {
    var actions: seq<Action> :| w == Run(actions);
    RunKeepsInv(actions, w);
  }

  /** However recordings and scans interleave, a scan reaches its rank inside the loop: the fall-through to
      the maximum is dead code. */
  lemma ScansNeverFallThrough(w: World, j: nat)
    requires Reachable(w) && j < |w.readers|
    ensures !w.readers[j].FellThrough?
  {
    ReachableIsInv(w);
  }

  /** The rank is p percent, rounded up, of a total no larger than what was in the buckets. */
  ghost predicate IsRankOf(call: Call, rank: int, bucketed: nat) {
    && 0.0 < call.p < 100.0 && 0 < call.total <= bucketed
    && (rank - 1) as real < call.p / 100.0 * call.total as real <= rank as real
  }

  ghost predicate HasItsRank(rd: Reader) {
    && (rd.Scanning? ==> IsRankOf(rd.call, rd.rank, |rd.seen|))
    && (rd.Returned? ==> IsRankOf(rd.call, rd.rank, |rd.seen|))
  }

  lemma ReadKeepsRank(w: World, rd: Reader)
    requires Inv(w) && OnTrack(w.h, rd) && HasItsRank(rd)
    ensures HasItsRank(ReadNext(w.h, w.recorders, rd))
  {
    if rd.ToLoadCount? && w.h.count > 0 {
      CountIsBucketed(w.h, w.recorders);
      RankRoundsUp(rd.p, w.h.count);
    }
  }

  lemma CountIsBucketed(h: Shared, rs: seq<Recorder>)
    requires TotalsMatch(h, rs)
    ensures h.count <= |Bucketed(rs)|
  {
    TallyAtMost(rs, CountedNow(), BumpedNow());
    BucketsCountBucketed(h, rs);
    MassIsCount(Bucketed(rs), h.buckets);
  }

  lemma {:induction false} RunKeepsRanks(actions: seq<Action>, w: World)
    requires w == Run(actions)
    ensures forall j :: 0 <= j < |w.readers| ==> HasItsRank(w.readers[j])
  {
    if actions == [] {
    } else {
      var before, a := Run(actions[..|actions| - 1]), actions[|actions| - 1];
      RunKeepsRanks(actions[..|actions| - 1], before);
      RunKeepsInv(actions[..|actions| - 1], before);
      if a.ReadStep? && a.j < |before.readers| {
        ReadKeepsRank(before, before.readers[a.j]);
      }
    }
  }

  /** The rank a percentile call looks for is p percent, rounded up, of the total it loaded, which counts only
      latencies that were in their buckets by then. The call answers with a bucket no higher than that of the sample
      at its rank among the latencies bucketed when it began, and no lower than that of the sample at the same
      rank among those bucketed at any later time: recordings can only pull the answer down. With nothing
      recorded in between, both bounds meet in the exact nearest-rank sample. */
  lemma RacingScanIsBracketed(w: World, j: nat)
    requires Reachable(w) && j < |w.readers| && w.readers[j].Returned?
    ensures var rd, now := w.readers[j], Bucketed(w.recorders);
      && 0.0 < rd.call.p < 100.0 && 0 < rd.call.total <= |rd.seen|
      && (rd.rank - 1) as real < rd.call.p / 100.0 * rd.call.total as real <= rd.rank as real
      && 1 <= rd.rank <= |rd.seen| && rd.rank <= |now|
      && BucketIndex(NearestRank(now, rd.rank)) <= rd.idx <= BucketIndex(NearestRank(rd.seen, rd.rank))
      && rd.v == BucketToMicros(rd.idx)
  {
    ReachableIsInv(w);
    var rd := w.readers[j];
    var actions: seq<Action> :| w == Run(actions);
    RunKeepsRanks(actions, w);
    assert HasItsRank(rd);
    BucketsCountBucketed(w.h, w.recorders);
    Bracketed(rd.start, w.h.buckets, rd.rank, rd.idx, rd.seen, Bucketed(w.recorders));
  }

  lemma Bracketed(start: seq<nat>, counts: seq<nat>, rank: int, idx: nat, before: seq<nat>, now: seq<nat>)
    requires CountsOf(start, before) && CountsOf(counts, now) && NoneShrank(start, counts) && idx < TOTAL_BUCKETS
    requires 1 <= rank <= SumN(start) && SumN(start[..idx]) < rank <= SumN(counts[..idx + 1])
    ensures 1 <= rank <= |before| && rank <= |now|
    ensures BucketIndex(NearestRank(now, rank)) <= idx <= BucketIndex(NearestRank(before, rank))
  {
    MassIsCount(before, start);
    MassIsCount(now, counts);
    LargerSum(start, counts);
    HistogramMass(before, start, idx);
    HistogramMass(now, counts, idx + 1);
    RankBelow(now, rank, idx);
    RankAbove(before, rank, idx);
  }

  ghost predicate Quiescent(w: World) {
    forall i :: 0 <= i < |w.recorders| ==> w.recorders[i].pc.Finished?
  }

  ghost function SamplesOf(rs: seq<Recorder>): seq<nat> {
    seq(|rs|, i requires 0 <= i < |rs| => rs[i].micros)
  }

  /** Once every recording has finished, the shared fields hold exactly what a single caller recording the
      same latencies one after the other would have left: no increment and no extreme is lost to a race. */
  lemma QuiescentIsSequential(w: World)
    requires Reachable(w) && Quiescent(w)
    ensures Represents(w.h, SamplesOf(w.recorders))
    ensures SumN(w.h.buckets) == w.h.count
  {
    ReachableIsInv(w);
    var h, rs := w.h, w.recorders;
    var samples := SamplesOf(rs);
    forall i | 0 <= i < TOTAL_BUCKETS
      ensures h.buckets[i] == Tally(samples, InBucket(i))
    {
      TallyPointwise(rs, InBucketNow(i), samples, InBucket(i));
    }
    TallyOnes(rs, BumpedNow());
    TallyOnes(rs, CountedNow());
    TallyPointwise(rs, SummedNow(), samples, (x: nat) => x);
    ExtremesAtRest(h, rs);
  }

  lemma ExtremesAtRest(h: Shared, rs: seq<Recorder>)
    requires ExtremesMatch(h, rs)
    requires forall i :: 0 <= i < |rs| ==> rs[i].pc.Finished?
    ensures IsMin(SamplesOf(rs), h.minMicros) && IsMax(SamplesOf(rs), h.maxMicros)
  {
    var samples := SamplesOf(rs);
    forall x | Recorded(rs, x)
      ensures x in samples
    {
      var i :| 0 <= i < |rs| && rs[i].micros == x;
      assert samples[i] == x;
    }
    if samples != [] {
      assert samples[0] == rs[0].micros;
      if h.maxMicros == 0 { assert samples[0] == 0; }
    }
  }

  // --- percentiles against the maximum while recordings race

  /** The stored maximum is that of a finished recording, or still zero. */
  ghost predicate MaximumIsFinished(w: World) {
    w.h.maxMicros == 0 || exists i :: 0 <= i < |w.recorders| && FinishedAt(w.recorders[i], w.h.maxMicros)
  }

  ghost predicate FinishedAt(r: Recorder, micros: nat) {
    r.pc.Finished? && r.micros == micros
  }

  lemma NextKeepsMaximum(w: World, a: Action)
    requires |w.h.buckets| == TOTAL_BUCKETS && MaximumIsFinished(w)
    ensures MaximumIsFinished(Next(w, a))
  {
    var after := Next(w, a);
    if after.h.maxMicros == w.h.maxMicros {
      if w.h.maxMicros != 0 {
        var i :| 0 <= i < |w.recorders| && FinishedAt(w.recorders[i], w.h.maxMicros);
        assert FinishedAt(after.recorders[i], after.h.maxMicros);
      }
    } else {
      assert FinishedAt(after.recorders[a.i], after.h.maxMicros);
    }
  }

  lemma {:induction false} RunKeepsMaximum(actions: seq<Action>)
    ensures MaximumIsFinished(Run(actions))
  {
    if actions == [] {
    } else {
      RunKeepsMaximum(actions[..|actions| - 1]);
      NextKeepsMaximum(Run(actions[..|actions| - 1]), actions[|actions| - 1]);
    }
  }

  /** A percentile read while recordings race is within the stored maximum exactly when some recording of at
      least that latency has finished: the maximum is the last thing a recording updates. */
  lemma WithinMaximumExactlyWhenFinished(w: World, j: nat)
    requires Reachable(w) && j < |w.readers| && w.readers[j].Returned?
    ensures var v := w.readers[j].v;
      v <= w.h.maxMicros <==>
        v == 0 || exists i :: 0 <= i < |w.recorders| && w.recorders[i].pc.Finished? && w.recorders[i].micros >= v
  {
    ReachableIsInv(w);
    var actions: seq<Action> :| w == Run(actions);
    RunKeepsMaximum(actions);
    if w.h.maxMicros != 0 {
      var i :| 0 <= i < |w.recorders| && FinishedAt(w.recorders[i], w.h.maxMicros);
      assert w.recorders[i].micros == w.h.maxMicros;
    }
  }

  /** One recording of 1 us that has been counted but has not reached the maximum; P50 is read, then P99 while
      a recording of 0 us comes in. */
  function Overtaken(): seq<Action> {
    [StartRecord(1)] + [RecordStep(0)] + [RecordStep(0)]
    + [StartPercentile(50.0)] + [ReadStep(0)] + [ReadStep(0)] + [ReadStep(0)]
    + [StartPercentile(99.0)] + [ReadStep(1)]
    + [StartRecord(0)] + [RecordStep(1)] + [ReadStep(1)]
  }

  lemma RunSnoc(actions: seq<Action>, a: Action)
    ensures Run(actions + [a]) == Next(Run(actions), a)
  {
    assert (actions + [a])[..|actions|] == actions;
  }

  /** So figures read while recordings race need be ordered neither among themselves nor against the maximum:
      here P50 is 1 us, and both P99 and the maximum are 0. */
  lemma RacingFiguresNeedNotBeOrdered()
    ensures var w := Run(Overtaken());
      && |w.readers| == 2 && w.readers[0].Returned? && w.readers[1].Returned?
      && w.readers[0].v == 1 && w.readers[1].v == 0 && w.h.maxMicros == 0
  {
    var w := FirstRead();
    var a := Overtaken()[..7];
    assert Overtaken() ==
      a + [StartPercentile(99.0)] + [ReadStep(1)] + [StartRecord(0)] + [RecordStep(1)] + [ReadStep(1)];
    RunSnoc(a, StartPercentile(99.0));
    RunSnoc(a + [StartPercentile(99.0)], ReadStep(1));
    RunSnoc(a + [StartPercentile(99.0)] + [ReadStep(1)], StartRecord(0));
    RunSnoc(a + [StartPercentile(99.0)] + [ReadStep(1)] + [StartRecord(0)], RecordStep(1));
    RunSnoc(a + [StartPercentile(99.0)] + [ReadStep(1)] + [StartRecord(0)] + [RecordStep(1)], ReadStep(1));
    assert Rank(99.0, 1) == 1;
  }

  lemma FirstCounted() returns (w: World)
    ensures w == Run(Overtaken()[..3])
    ensures w == World(Shared(Empty().buckets[1 := 1], 1, 0, MAX_UINT64, 0), [Recorder(1, ToSum)], [])
  {
    var none: seq<Action> := [];
    assert Overtaken()[..3] == none + [StartRecord(1)] + [RecordStep(0)] + [RecordStep(0)];
    RunSnoc(none, StartRecord(1));
    RunSnoc(none + [StartRecord(1)], RecordStep(0));
    RunSnoc(none + [StartRecord(1)] + [RecordStep(0)], RecordStep(0));
    w := Run(Overtaken()[..3]);
  }

  lemma FirstRead() returns (w: World)
    ensures w == Run(Overtaken()[..7])
    ensures w.h == Shared(Empty().buckets[1 := 1], 1, 0, MAX_UINT64, 0) && w.recorders == [Recorder(1, ToSum)]
    ensures |w.readers| == 1 && w.readers[0].Returned? && w.readers[0].v == 1
  {
    w := FirstCounted();
    var b := Overtaken()[..3];
    assert Overtaken()[..7] == b + [StartPercentile(50.0)] + [ReadStep(0)] + [ReadStep(0)] + [ReadStep(0)];
    RunSnoc(b, StartPercentile(50.0));
    RunSnoc(b + [StartPercentile(50.0)], ReadStep(0));
    RunSnoc(b + [StartPercentile(50.0)] + [ReadStep(0)], ReadStep(0));
    RunSnoc(b + [StartPercentile(50.0)] + [ReadStep(0)] + [ReadStep(0)], ReadStep(0));
    assert Rank(50.0, 1) == 1;
    w := Run(Overtaken()[..7]);
  }
}
