/** The master's telemetry ring and its upload watermark: pushTelemetry, telemetryAt and backendPublishBatch of
    src/network/network_manager.cpp. Whether a publish was acknowledged is the network's choice.
  */
module TelemetryRing {
  import opened Bytes
  import HostTables
  import StoreBatch

  const RING: nat := 64
  const BATCH: nat := 16

  datatype Entry = Entry(time: nat, nodeId: string, ph: real, light: real, moisture: real)

  /** The position of the oldest entry the ring still holds. */
  function Oldest(n: nat): nat {
    if n <= RING then 0 else n - RING
  }

  /** The positions of the first `room` entries from `p` on that are newer than the watermark. */
  function Eligible(pushed: seq<Entry>, until: nat, p: nat, room: nat): seq<nat>
    requires p <= |pushed|
    decreases |pushed| - p
  {
    if p == |pushed| || room == 0 then []
    else if pushed[p].time <= until then Eligible(pushed, until, p + 1, room)
    else [p] + Eligible(pushed, until, p + 1, room - 1)
  }

  function BatchOf(pushed: seq<Entry>, until: nat): seq<nat> {
    Eligible(pushed, until, Oldest(|pushed|), BATCH)
  }

  lemma EligibleStep(pushed: seq<Entry>, until: nat, p: nat, room: nat)
    requires p < |pushed| && room > 0
    ensures Eligible(pushed, until, p, room)
            == if pushed[p].time <= until then Eligible(pushed, until, p + 1, room)
               else [p] + Eligible(pushed, until, p + 1, room - 1)
  {
  }

  lemma EligibleStops(pushed: seq<Entry>, until: nat, p: nat, room: nat)
    requires p == |pushed| || (p < |pushed| && room == 0)
    ensures Eligible(pushed, until, p, room) == []
  {
  }

  lemma Associative(a: seq<nat>, b: seq<nat>, c: seq<nat>)
    ensures a + (b + c) == (a + b) + c
  {
  }

  /** Rising positions from `p` on, of entries newer than the watermark. */
  ghost predicate Rising(pushed: seq<Entry>, until: nat, p: nat, ps: seq<nat>) {
    (forall i :: 0 <= i < |ps| ==> p <= ps[i] < |pushed| && pushed[ps[i]].time > until)
    && (forall i, j :: 0 <= i < j < |ps| ==> ps[i] < ps[j])
  }

  lemma RisingStep(pushed: seq<Entry>, until: nat, p: nat, rest: seq<nat>)
    requires p < |pushed| && Rising(pushed, until, p + 1, rest)
    ensures Rising(pushed, until, p, rest)
    ensures pushed[p].time > until ==> Rising(pushed, until, p, [p] + rest)
  {
  }

  lemma {:induction false} EligibleIs(pushed: seq<Entry>, until: nat, p: nat, room: nat)
    requires p <= |pushed|
    ensures |Eligible(pushed, until, p, room)| <= room && Rising(pushed, until, p, Eligible(pushed, until, p, room))
    decreases |pushed| - p
  {
    if p < |pushed| && room > 0 {
      hide Rising;
      var left := if pushed[p].time <= until then room else room - 1;
      EligibleIs(pushed, until, p + 1, left);
      RisingStep(pushed, until, p, Eligible(pushed, until, p + 1, left));
    }
  }

  lemma {:induction false} EligibleIsAll(pushed: seq<Entry>, until: nat, p: nat, room: nat, q: nat)
    requires p <= q < |pushed| && pushed[q].time > until && |Eligible(pushed, until, p, room)| < room
    ensures q in Eligible(pushed, until, p, room)
    decreases |pushed| - p
  {
    if pushed[p].time <= until {
      EligibleIsAll(pushed, until, p + 1, room, q);
    } else if p < q {
      EligibleIsAll(pushed, until, p + 1, room - 1, q);
    }
  }

  // ---------------------------------------------------------------------------
  // The handler's fields
  // ---------------------------------------------------------------------------

  /** `sent` are the entries at the positions `ps`. */
  ghost predicate Picks(pushed: seq<Entry>, ps: seq<nat>, sent: seq<Entry>) {
    |sent| == |ps| && forall k :: 0 <= k < |ps| ==> ps[k] < |pushed| && sent[k] == pushed[ps[k]]
  }

  lemma NoPick(pushed: seq<Entry>)
    ensures Picks(pushed, [], [])
  {
  }

  lemma PickOne(pushed: seq<Entry>, ps: seq<nat>, sent: seq<Entry>, p: nat)
    requires Picks(pushed, ps, sent) && p < |pushed|
    ensures Picks(pushed, ps + [p], sent + [pushed[p]])
  {
  }

  class NetworkHandler {
    const ring: array<Entry>
    var ringHead: nat
    var ringCount: nat
    var sentUntil: nat
    ghost var pushed: seq<Entry>   // everything that was ever pushed

    ghost predicate Valid()
      reads this, ring
    {
      ring.Length == RING && ringCount == Min(|pushed|, RING) && ringHead == |pushed| % RING
      && forall p :: |pushed| - ringCount <= p < |pushed| ==> ring[p % RING] == pushed[p]
    }

    constructor (nothing: Entry)
      ensures Valid() && pushed == [] && sentUntil == 0 && fresh(ring)
    {
      ring := new Entry[RING](_ => nothing);
      ringHead, ringCount, sentUntil, pushed := 0, 0, 0, [];
    }

    method Push(e: Entry)
      requires Valid()
      modifies this`ringHead, this`ringCount, this`pushed, ring
      ensures Valid() && pushed == old(pushed) + [e]
    {
      ghost var n := |pushed|;
      ring[ringHead] := e;
      ringHead := (ringHead + 1) % RING;
      if ringCount < RING {
        ringCount := ringCount + 1;
      }
      pushed := pushed + [e];
      assert ringHead == (n + 1) % RING by { NextSlot(n); }
      forall p | |pushed| - ringCount <= p < n
        ensures ring[p % RING] == pushed[p]
      {
        SlotsDiffer(p, n);
        assert old(pushed)[p] == pushed[p];
      }
    }

    /** The last min(n, 64) pushed entries, oldest first. */
    method TelemetryAt(i: nat) returns (e: Option<Entry>)
      requires Valid()
      ensures ringCount == Min(|pushed|, RING)
      ensures e == if i < ringCount then Some(pushed[|pushed| - ringCount + i]) else None
      ensures ringCount == Min(|pushed|, 64)
    {
      if i >= ringCount {
        return None;
      }
      SlotOf(|pushed|, ringCount, i);
      assert ring[(|pushed| - ringCount + i) % RING] == pushed[|pushed| - ringCount + i];
      e := Some(ring[(ringHead + RING - ringCount + i) % RING]);
    }

    method Collect() returns (sent: seq<Entry>)
      requires Valid()
      ensures |sent| <= BATCH && Picks(pushed, BatchOf(pushed, sentUntil), sent)
    {
      hide Eligible, Picks;
      sent := [];
      var i := 0;
      ghost var w := Oldest(|pushed|);
      ghost var ps: seq<nat> := [];
      NoPick(pushed);
      while i < ringCount && |sent| < BATCH
        invariant 0 <= i <= ringCount && |sent| <= BATCH && Picks(pushed, ps, sent)
        invariant BatchOf(pushed, sentUntil) == ps + Eligible(pushed, sentUntil, w + i, BATCH - |sent|)
      {
        var e := TelemetryAt(i);
        EligibleStep(pushed, sentUntil, w + i, BATCH - |sent|);
        if e.value.time > sentUntil {
          Associative(ps, [w + i], Eligible(pushed, sentUntil, w + i + 1, BATCH - |sent| - 1));
          PickOne(pushed, ps, sent, w + i);
          sent, ps := sent + [e.value], ps + [w + i];
        }
        i := i + 1;
      }
      EligibleStops(pushed, sentUntil, w + i, BATCH - |sent|);
      assert ps + [] == ps;
    }

    /** `now` is the clock and `acked` what publish would return. The batch that was sent, if any. */
    method PublishBatch(now: nat, acked: bool) returns (sent: seq<Entry>)
      requires Valid()
      modifies this`sentUntil
      ensures Valid() && |sent| <= BATCH
      ensures Picks(pushed, BatchOf(pushed, old(sentUntil)), sent)
      ensures sentUntil == if sent == [] || acked then now else old(sentUntil)
    {
      sent := Collect();
      if |sent| == 0 {
        sentUntil := now;
        return;
      }
      if acked {
        sentUntil := now;
      }
    }
  }

  lemma NextSlot(n: nat)
    ensures (n % RING + 1) % RING == (n + 1) % RING
  {
  }

  /** Where the ring keeps the entry of position `n - count + i`. */
  lemma SlotOf(n: nat, count: nat, i: nat)
    requires i < count <= RING && count <= n
    ensures (n % RING + RING - count + i) % RING == (n - count + i) % RING
  {
  }

  lemma SlotsDiffer(p: nat, n: nat)
    requires p < n < p + RING
    ensures p % RING != n % RING
  {
  }

  // ---------------------------------------------------------------------------
  // Runs
  // ---------------------------------------------------------------------------

  /** `batches` are the acknowledged batches, as positions in `pushed`. */
  datatype State = State(pushed: seq<Entry>, sentUntil: nat, clock: nat, started: bool, batches: seq<seq<nat>>)

  datatype Step =
    | Push(e: Entry)
    | Connected(now: nat)              // the first connect sets the watermark
    | Publish(now: nat, acked: bool)

  function Next(st: State, step: Step): State {
    match step
    case Push(e) => st.(pushed := st.pushed + [e])
    case Connected(now) => st.(sentUntil := if st.started then st.sentUntil else now, started := true, clock := now)
    case Publish(now, acked) =>
      var batch := BatchOf(st.pushed, st.sentUntil);
      st.(sentUntil := if batch == [] || acked then now else st.sentUntil,
          clock := now,
          batches := if batch != [] && acked then st.batches + [batch] else st.batches)
  }

  /** backendLoop publishes only when the clock is behind this second; before, it has not been set. */
  const CLOCK_SET: nat := 1_600_000_000

  /** The clock does not run backwards, it is set before a batch is published, and nothing in the ring is then from its
      future. */
  ghost predicate Proper(st: State, step: Step) {
    match step
    case Push(e) => true
    case Connected(now) => now >= st.clock
    case Publish(now, _) =>
      now >= st.clock && now > CLOCK_SET
      && forall p :: Oldest(|st.pushed|) <= p < |st.pushed| ==> st.pushed[p].time <= now
  }

  function Run(st: State, steps: seq<Step>): State {
    if steps == [] then st else Next(Run(st, steps[..|steps| - 1]), steps[|steps| - 1])
  }

  ghost predicate ProperRun(st: State, steps: seq<Step>) {
    steps == []
    || (ProperRun(st, steps[..|steps| - 1]) && Proper(Run(st, steps[..|steps| - 1]), steps[|steps| - 1]))
  }

  /** Behind the watermark, or overwritten. */
  ghost predicate Past(st: State, p: nat) {
    p < |st.pushed| && (st.pushed[p].time <= st.sentUntil || p < Oldest(|st.pushed|))
  }

  ghost predicate Inv(st: State) {
    st.sentUntil <= st.clock
    && (forall b, i :: 0 <= b < |st.batches| && 0 <= i < |st.batches[b]| ==> Past(st, st.batches[b][i]))
    && (forall a, b :: 0 <= a < b < |st.batches| ==> Disjoint(st.batches[a], st.batches[b]))
  }

  ghost predicate Disjoint(a: seq<nat>, b: seq<nat>) {
    forall p :: p in a ==> p !in b
  }

  lemma PastStays(st: State, step: Step, p: nat)
    requires Proper(st, step) && st.sentUntil <= st.clock && Past(st, p)
    ensures Past(Next(st, step), p)
  {
  }

  /** What a batch sends is not past; once the batch is acknowledged, the whole ring is. */
  lemma AckedIsPast(st: State, now: nat, acked: bool)
    requires Proper(st, Publish(now, acked))
    ensures var batch := BatchOf(st.pushed, st.sentUntil);
            var after := Next(st, Publish(now, acked));
            && (forall p :: p in batch ==> p < |st.pushed| && !Past(st, p))
            && (batch == [] || acked ==> forall p: nat :: p < |st.pushed| ==> Past(after, p))
  {
    EligibleIs(st.pushed, st.sentUntil, Oldest(|st.pushed|), BATCH);
  }

  lemma StepKeeps(st: State, step: Step)
    requires Inv(st) && Proper(st, step)
    ensures Inv(Next(st, step))
  {
    hide BatchOf, Past;
    var after := Next(st, step);
    forall b, i | 0 <= b < |st.batches| && 0 <= i < |st.batches[b]|
      ensures Past(after, st.batches[b][i])
    {
      PastStays(st, step, st.batches[b][i]);
    }
    if step.Publish? && after.batches != st.batches {
      var batch := BatchOf(st.pushed, st.sentUntil);
      AckedIsPast(st, step.now, step.acked);
      forall i | 0 <= i < |batch|
        ensures Past(after, batch[i])
      {
        assert batch[i] in batch;
      }
      forall a | 0 <= a < |st.batches|
        ensures Disjoint(st.batches[a], batch)
      {
        forall p | p in st.batches[a]
          ensures p !in batch
        {
          var i :| 0 <= i < |st.batches[a]| && st.batches[a][i] == p;
          assert Past(st, st.batches[a][i]);
        }
      }
    }
  }

  lemma {:induction false} RunKeeps(st: State, steps: seq<Step>)
    requires Inv(st) && ProperRun(st, steps)
    ensures Inv(Run(st, steps))
    ensures |Run(st, steps).batches| >= |st.batches| && Run(st, steps).batches[..|st.batches|] == st.batches
    decreases |steps|
  {
    if steps != [] {
      RunKeeps(st, steps[..|steps| - 1]);
      StepKeeps(Run(st, steps[..|steps| - 1]), steps[|steps| - 1]);
    }
  }

  /** A past entry is in no later batch. */
  lemma {:induction false} PastIsNeverSent(st: State, steps: seq<Step>, p: nat)
    requires Inv(st) && ProperRun(st, steps) && Past(st, p)
    ensures Past(Run(st, steps), p) && |Run(st, steps).batches| >= |st.batches|
    ensures forall b :: |st.batches| <= b < |Run(st, steps).batches| ==> p !in Run(st, steps).batches[b]
    decreases |steps|
  {
    hide BatchOf, Past, Inv;
    if steps != [] {
      var before := Run(st, steps[..|steps| - 1]);
      var step := steps[|steps| - 1];
      PastIsNeverSent(st, steps[..|steps| - 1], p);
      RunKeeps(st, steps[..|steps| - 1]);
      ClockIsAhead(before);
      PastStays(before, step, p);
      if step.Publish? {
        AckedIsPast(before, step.now, step.acked);
      }
    }
  }

  lemma ClockIsAhead(st: State)
    requires Inv(st)
    ensures st.sentUntil <= st.clock
  {
  }

  // ---------------------------------------------------------------------------
  // Main results
  // ---------------------------------------------------------------------------

  function Empty(clock: nat): State {
    State([], 0, clock, false, [])
  }

  /** No entry is in two acknowledged batches. */
  lemma AckedBatchesAreDisjoint(clock: nat, steps: seq<Step>, a: nat, b: nat)
    requires ProperRun(Empty(clock), steps) && a < b < |Run(Empty(clock), steps).batches|
    ensures Disjoint(Run(Empty(clock), steps).batches[a], Run(Empty(clock), steps).batches[b])
  {
    RunKeeps(Empty(clock), steps);
  }

  /** How many entries from `from` to before `p` are newer than the watermark. */
  function Newer(pushed: seq<Entry>, until: nat, from: nat, p: nat): nat
    requires p <= |pushed|
    decreases p - from
  {
    if from >= p then 0 else (if pushed[from].time > until then 1 else 0) + Newer(pushed, until, from + 1, p)
  }

  /** Membership in a batch, without its order. */
  lemma {:induction false} InEligible(pushed: seq<Entry>, until: nat, from: nat, room: nat, p: nat)
    requires from <= |pushed| && p < |pushed|
    ensures p in Eligible(pushed, until, from, room)
            <==> from <= p && pushed[p].time > until && Newer(pushed, until, from, p) < room
    decreases |pushed| - from
  {
    if from < |pushed| && room > 0 {
      InEligible(pushed, until, from + 1, if pushed[from].time <= until then room else room - 1, p);
    }
  }

  lemma {:induction false} NewerShrinks(pushed: seq<Entry>, more: seq<Entry>, until: nat, from: nat, later: nat, p: nat)
    requires p <= |pushed| && from <= later
    ensures Newer(pushed + more, until, later, p) <= Newer(pushed, until, from, p)
    decreases p - from
  {
    if from < p {
      NewerShrinks(pushed, more, until, from + 1, if from < later then later else from + 1, p);
    }
  }

  /** Later readings do not push an entry out of the next batch; only overwriting it in the ring does. */
  lemma PushesKeepEligible(pushed: seq<Entry>, more: seq<Entry>, until: nat, p: nat)
    requires p in BatchOf(pushed, until)
    ensures p < |pushed| && (p in BatchOf(pushed + more, until) <==> Oldest(|pushed + more|) <= p)
  {
    var from, later := Oldest(|pushed|), Oldest(|pushed + more|);
    EligibleIs(pushed, until, from, BATCH);
    InEligible(pushed, until, from, BATCH, p);
    InEligible(pushed + more, until, later, BATCH, p);
    NewerShrinks(pushed, more, until, from, later, p);
  }

  /** No publish of these steps is acknowledged. */
  ghost predicate Unacknowledged(steps: seq<Step>) {
    forall i :: 0 <= i < |steps| && steps[i].Publish? ==> !steps[i].acked
  }

  /** The pushes have only grown and, while `p` is in the ring, the watermark has not moved. */
  ghost predicate Waits(st: State, now: State, p: nat) {
    now.started && st.pushed <= now.pushed
    && (Oldest(|now.pushed|) <= p ==> now.sentUntil == st.sentUntil) && now.batches == st.batches
  }

  lemma WaitsOn(st: State, now: State, step: Step, p: nat)
    requires p in BatchOf(st.pushed, st.sentUntil) && Waits(st, now, p) && (step.Publish? ==> !step.acked)
    ensures Waits(st, Next(now, step), p)
  {
    hide BatchOf;
    var more := now.pushed[|st.pushed|..];
    assert now.pushed == st.pushed + more;
    PushesKeepEligible(st.pushed, more, st.sentUntil, p);
  }

  lemma {:induction false} RunWaits(st: State, now: State, steps: seq<Step>, p: nat)
    requires p in BatchOf(st.pushed, st.sentUntil) && Waits(st, now, p) && Unacknowledged(steps)
    ensures Waits(st, Run(now, steps), p)
    decreases |steps|
  {
    hide BatchOf, Waits, Next;
    if steps != [] {
      RunWaits(st, now, steps[..|steps| - 1], p);
      WaitsOn(st, Run(now, steps[..|steps| - 1]), steps[|steps| - 1], p);
    }
  }

  /** A reading of a batch that was not acknowledged stays in the next batch, whatever is pushed and however many more
      publishes fail, exactly as long as the ring holds it; the first acknowledged publish in that time sends it. */
  lemma FailureKeepsEligible(st: State, now: nat, later: seq<Step>, p: nat)
    requires st.started && p in BatchOf(st.pushed, st.sentUntil) && Unacknowledged(later)
    ensures var after := Run(Next(st, Publish(now, false)), later);
            && p < |st.pushed| && st.pushed <= after.pushed && after.batches == st.batches
            && (p in BatchOf(after.pushed, after.sentUntil) <==> Oldest(|after.pushed|) <= p)
            && (Oldest(|after.pushed|) <= p ==> forall t ::
                  Next(after, Publish(t, true)).batches == st.batches + [BatchOf(after.pushed, after.sentUntil)])
  {
    hide BatchOf, Run;
    PushesKeepEligible(st.pushed, [], st.sentUntil, p);
    WaitsOn(st, st, Publish(now, false), p);
    var first := Next(st, Publish(now, false));
    RunWaits(st, first, later, p);
    var after := Run(first, later);
    var more := after.pushed[|st.pushed|..];
    assert after.pushed == st.pushed + more;
    PushesKeepEligible(st.pushed, more, st.sentUntil, p);
    if p < Oldest(|after.pushed|) {
      OverwrittenIsOut(after, p);
    }
  }

  lemma OverwrittenIsOut(st: State, p: nat)
    requires p < Oldest(|st.pushed|)
    ensures p !in BatchOf(st.pushed, st.sentUntil)
  {
    EligibleIs(st.pushed, st.sentUntil, Oldest(|st.pushed|), BATCH);
  }

  /** The entries the ring holds that have not been sent. */
  ghost function Unsent(st: State): set<nat> {
    set p: nat | Oldest(|st.pushed|) <= p < |st.pushed| && st.pushed[p].time > st.sentUntil
  }

  lemma {:induction false} SizeOfBatch(ps: seq<nat>)
    requires forall i, j :: 0 <= i < j < |ps| ==> ps[i] < ps[j]
    ensures |set p: nat | p in ps| == |ps|
  {
    if ps != [] {
      var init, last := ps[..|ps| - 1], ps[|ps| - 1];
      SizeOfBatch(init);
      var before := set p: nat | p in init;
      assert last !in before;
      assert ps == init + [last];
      assert (set p: nat | p in ps) == before + {last};
    }
  }

  /** An acknowledged batch leaves nothing unsent exactly when at most 16 entries were; what it leaves is never sent. */
  lemma AckSendsAllUpToSixteen(st: State, now: nat)
    requires Proper(st, Publish(now, true))
    ensures var batch := BatchOf(st.pushed, st.sentUntil);
            (forall p :: p in batch ==> p in Unsent(st))
            && ((forall p :: p in Unsent(st) ==> p in batch) <==> |Unsent(st)| <= BATCH)
  {
    var batch := BatchOf(st.pushed, st.sentUntil);
    var sent := set p: nat | p in batch;
    EligibleIs(st.pushed, st.sentUntil, Oldest(|st.pushed|), BATCH);
    SizeOfBatch(batch);
    assert sent <= Unsent(st);
    if |batch| < BATCH {
      forall p | p in Unsent(st)
        ensures p in sent
      {
        EligibleIsAll(st.pushed, st.sentUntil, Oldest(|st.pushed|), BATCH, p);
      }
      assert Unsent(st) == sent;
    } else if |Unsent(st)| <= BATCH {
      SameSize(sent, Unsent(st));
    } else {
      SubsetSize(sent, Unsent(st));
      if Unsent(st) <= sent {
        SubsetSize(Unsent(st), sent);
      }
    }
  }

  lemma SameSize(a: set<nat>, b: set<nat>)
    requires a <= b && |b| <= |a|
    ensures a == b
  {
    if a != b {
      var x :| x in b && x !in a;
      assert a <= b - {x};
      SubsetSize(a, b - {x});
    }
  }

  lemma {:induction false} SubsetSize(a: set<nat>, b: set<nat>)
    requires a <= b
    ensures |a| <= |b|
  {
    if a != {} {
      var x :| x in a;
      SubsetSize(a - {x}, b - {x});
    }
  }

  /** Whatever an acknowledged batch left behind is never sent, and neither is a reading that is not newer than the
      watermark when it is pushed. */
  lemma LeftBehindIsLost(st: State, now: nat, later: seq<Step>, p: nat)
    requires Inv(st) && Proper(st, Publish(now, true)) && p < |st.pushed|
    requires ProperRun(Next(st, Publish(now, true)), later)
    ensures var after := Next(st, Publish(now, true));
            forall b :: |after.batches| <= b < |Run(after, later).batches| ==> p !in Run(after, later).batches[b]
  {
    AckedIsPast(st, now, true);
    StepKeeps(st, Publish(now, true));
    PastIsNeverSent(Next(st, Publish(now, true)), later, p);
  }

  lemma LateReadingIsLost(st: State, e: Entry, later: seq<Step>)
    requires Inv(st) && e.time <= st.sentUntil && ProperRun(Next(st, Push(e)), later)
    ensures var after := Next(st, Push(e));
            forall b :: |st.batches| <= b < |Run(after, later).batches| ==> |st.pushed| !in Run(after, later).batches[b]
  {
    StepKeeps(st, Push(e));
    PastIsNeverSent(Next(st, Push(e)), later, |st.pushed|);
  }

  // ---------------------------------------------------------------------------
  // Readings that are lost, in runs from the start
  // ---------------------------------------------------------------------------

  function Pushes(es: seq<Entry>): seq<Step> {
    seq(|es|, i requires 0 <= i < |es| => Push(es[i]))
  }

  lemma {:induction false} RunPushes(st: State, es: seq<Entry>)
    ensures Run(st, Pushes(es)) == st.(pushed := st.pushed + es) && ProperRun(st, Pushes(es))
    decreases |es|
  {
    if es == [] {
      assert st.pushed + [] == st.pushed;
    } else {
      var init := es[..|es| - 1];
      RunPushes(st, init);
      assert Pushes(es)[..|es| - 1] == Pushes(init);
      assert st.pushed + es == (st.pushed + init) + [es[|es| - 1]];
    }
  }

  lemma {:induction false} RunOfTwo(st: State, first: seq<Step>, second: seq<Step>)
    requires ProperRun(st, first) && ProperRun(Run(st, first), second)
    ensures Run(st, first + second) == Run(Run(st, first), second) && ProperRun(st, first + second)
    decreases |second|
  {
    hide Next, Proper;
    if second == [] {
      assert first + [] == first;
    } else {
      RunOfTwo(st, first, second[..|second| - 1]);
      assert (first + second)[..|first + second| - 1] == first + second[..|second| - 1];
    }
  }

  lemma OneStep(st: State, step: Step)
    requires Proper(st, step)
    ensures Run(st, [step]) == Next(st, step) && ProperRun(st, [step])
  {
    hide Next, Proper;
    assert [step][..0] == [];
    assert Run(st, []) == st && ProperRun(st, []);
  }

  /** The first connect at second `t`, readings pushed, and the batch five seconds after the connect. */
  function ConnectPushPublish(t: nat, es: seq<Entry>, acked: bool): seq<Step> {
    [Connected(t)] + Pushes(es) + [Publish(t + 5, acked)]
  }

  /** The handler when that batch is published. */
  function Ready(t: nat, es: seq<Entry>): State {
    State(es, t, t, true, [])
  }

  /** Taken between the connect and the batch. */
  ghost predicate TakenAt(es: seq<Entry>, time: nat) {
    forall i :: 0 <= i < |es| ==> es[i].time == time
  }

  lemma ConnectPushPublishRuns(t: nat, es: seq<Entry>, acked: bool)
    requires t > CLOCK_SET && TakenAt(es, t + 1)
    ensures ProperRun(Empty(0), ConnectPushPublish(t, es, acked))
    ensures Proper(Ready(t, es), Publish(t + 5, acked)) && Inv(Ready(t, es))
    ensures Run(Empty(0), ConnectPushPublish(t, es, acked)) == Next(Ready(t, es), Publish(t + 5, acked))
  {
    hide Run, ProperRun, BatchOf;
    var connected := Next(Empty(0), Connected(t));
    OneStep(Empty(0), Connected(t));
    RunPushes(connected, es);
    RunOfTwo(Empty(0), [Connected(t)], Pushes(es));
    assert connected.pushed + es == es;
    OneStep(Ready(t, es), Publish(t + 5, acked));
    RunOfTwo(Empty(0), [Connected(t)] + Pushes(es), [Publish(t + 5, acked)]);
  }

  /** The p-th of the entries pushed since the watermark is in the batch exactly when fewer than 16 are before it. */
  lemma AllNewer(t: nat, es: seq<Entry>, p: nat)
    requires |es| <= RING && p < |es| && TakenAt(es, t + 1)
    ensures p in BatchOf(es, t) <==> p < BATCH
  {
    InEligible(es, t, 0, BATCH, p);
    NewerIsAll(t, es, 0, p);
  }

  lemma {:induction false} NewerIsAll(t: nat, es: seq<Entry>, from: nat, p: nat)
    requires from <= p <= |es| && TakenAt(es, t + 1)
    ensures Newer(es, t, from, p) == p - from
    decreases p - from
  {
    if from < p {
      NewerIsAll(t, es, from + 1, p);
    }
  }

  /** From the start: of 17 readings taken in one interval the last is in no batch, now or ever, although the batch with
      the others was acknowledged. */
  lemma SeventeenthReadingIsLost(t: nat, reading: Entry, later: seq<Step>)
    requires t > CLOCK_SET
    requires ProperRun(Run(Empty(0), ConnectPushPublish(t, seq(17, _ => reading.(time := t + 1)), true)), later)
    ensures var steps := ConnectPushPublish(t, seq(17, _ => reading.(time := t + 1)), true);
            var st := Run(Run(Empty(0), steps), later);
            && ProperRun(Empty(0), steps)
            && |Run(Empty(0), steps).pushed| == 17 && |Run(Empty(0), steps).batches| == 1 <= |st.batches|
            && (forall p: nat :: p < 16 ==> p in st.batches[0])
            && forall b :: 0 <= b < |st.batches| ==> 16 !in st.batches[b]
  {
    hide Run, ProperRun, BatchOf;
    var es := seq(17, _ => reading.(time := t + 1));
    var ready := Ready(t, es);
    ConnectPushPublishRuns(t, es, true);
    forall p: nat | p < 17
      ensures p in BatchOf(es, t) <==> p < 16
    {
      AllNewer(t, es, p);
    }
    assert 0 in BatchOf(es, t);
    var sent := Next(ready, Publish(t + 5, true));
    StepKeeps(ready, Publish(t + 5, true));
    RunKeeps(sent, later);
    LeftBehindIsLost(ready, t + 5, later, 16);
    var st := Run(sent, later);
    assert st.batches[0] == st.batches[..1][0] == BatchOf(es, t);
  }

  // ---------------------------------------------------------------------------
  // Readings from the future
  // ---------------------------------------------------------------------------

  /** Up to the next publish, readings are pushed and the connection may come and go. */
  ghost predicate NoPublish(steps: seq<Step>) {
    forall i :: 0 <= i < |steps| ==> !steps[i].Publish?
  }

  lemma {:induction false} RunToNextPublish(st: State, steps: seq<Step>)
    requires st.started && NoPublish(steps)
    ensures var end := Run(st, steps);
            end.started && st.pushed <= end.pushed && end.sentUntil == st.sentUntil && end.batches == st.batches
    decreases |steps|
  {
    if steps != [] {
      RunToNextPublish(st, steps[..|steps| - 1]);
    }
  }

  /** Without the assumption that no reading is from the future: what an acknowledged batch sent at `now` is sent by the
      next publish again exactly if the ring still holds it, its time is after `now`, and fewer than 16 such readings
      are in front of it. */
  lemma SentAgainIf(st: State, now: nat, later: seq<Step>, p: nat)
    requires st.started && p in BatchOf(st.pushed, st.sentUntil) && NoPublish(later)
    ensures var end := Run(Next(st, Publish(now, true)), later);
            && p < |st.pushed| <= |end.pushed| && end.batches == st.batches + [BatchOf(st.pushed, st.sentUntil)]
            && (p in BatchOf(end.pushed, end.sentUntil)
                <==> Oldest(|end.pushed|) <= p && st.pushed[p].time > now
                     && Newer(end.pushed, now, Oldest(|end.pushed|), p) < BATCH)
  {
    hide BatchOf, Run;
    var sent := Next(st, Publish(now, true));
    PushesKeepEligible(st.pushed, [], st.sentUntil, p);
    RunToNextPublish(sent, later);
    var end := Run(sent, later);
    InBatch(end.pushed, now, p);
  }

  lemma InBatch(pushed: seq<Entry>, until: nat, p: nat)
    requires p < |pushed|
    ensures p in BatchOf(pushed, until)
            <==> Oldest(|pushed|) <= p && pushed[p].time > until && Newer(pushed, until, Oldest(|pushed|), p) < BATCH
  {
    InEligible(pushed, until, Oldest(|pushed|), BATCH, p);
  }

  /** From the start: a reading of a node whose clock is ahead is in two acknowledged batches. */
  lemma FutureReadingIsSentTwice(t: nat, reading: Entry)
    requires t > CLOCK_SET && reading.time > t + 5
    ensures var steps := [Connected(t), Push(reading), Publish(t + 5, true), Publish(t + 305, true)];
            Run(Empty(0), steps).batches == [[0], [0]]
  {
    hide Run, BatchOf;
    OnlyInBatch(reading, t);
    OnlyInBatch(reading, t + 5);
    var none: seq<Step> := [];
    assert Next(Next(Empty(0), Connected(t)), Push(reading)) == Ready(t, [reading]);
    assert Next(Next(Ready(t, [reading]), Publish(t + 5, true)), Publish(t + 305, true)).batches == [[0], [0]];
    NoStep(Empty(0));
    RunMore(Empty(0), none, Connected(t));
    RunMore(Empty(0), none + [Connected(t)], Push(reading));
    RunMore(Empty(0), none + [Connected(t)] + [Push(reading)], Publish(t + 5, true));
    RunMore(Empty(0), none + [Connected(t)] + [Push(reading)] + [Publish(t + 5, true)], Publish(t + 305, true));
    assert none + [Connected(t)] + [Push(reading)] + [Publish(t + 5, true)] + [Publish(t + 305, true)]
        == [Connected(t), Push(reading), Publish(t + 5, true), Publish(t + 305, true)];
  }

  lemma NoStep(st: State)
    ensures Run(st, []) == st
  {
  }

  lemma RunMore(st: State, steps: seq<Step>, step: Step)
    ensures Run(st, steps + [step]) == Next(Run(st, steps), step)
  {
    assert (steps + [step])[..|steps|] == steps;
  }

  lemma OnlyInBatch(reading: Entry, until: nat)
    requires reading.time > until
    ensures BatchOf([reading], until) == [0]
  {
    EligibleStep([reading], until, 0, 16);
    EligibleStops([reading], until, 1, 15);
  }

  // ---------------------------------------------------------------------------
  // At the host
  // ---------------------------------------------------------------------------

  /** One element of the published document; there is no EC sensor. */
  function ReadingOf(e: Entry): HostTables.Reading {
    HostTables.Reading(e.nodeId, e.ph, 0.0, e.light, e.moisture, "1.0", "esp32-slave-1.0.0")
  }

  function Document(messageId: string, now: nat, sent: seq<Entry>): HostTables.Batch {
    HostTables.Batch(messageId, now, "esp32-master-1.0.0",
                     seq(|sent|, i requires 0 <= i < |sent| => ReadingOf(sent[i])))
  }

  /** What the published document says, reading by reading. */
  lemma DocumentSays(messageId: string, now: nat, sent: seq<Entry>)
    ensures var d := Document(messageId, now, sent);
            && d.messageId == messageId && d.measuredAt == now && d.firmware == "esp32-master-1.0.0"
            && |d.readings| == |sent|
            && forall k :: 0 <= k < |sent| ==>
                 var r := d.readings[k];
                 && r.slave == sent[k].nodeId && r.ph == sent[k].ph && r.ec == 0.0 && r.light == sent[k].light
                 && r.moisture == sent[k].moisture && r.calibration == "1.0" && r.firmware == "esp32-slave-1.0.0"
  {
  }

  /** All readings of a batch carry the batch's time, so the host takes it only if every node is in it once. */
  lemma HostTakesTheBatchIf(t: HostTables.Tables, m: string, messageId: string, now: nat, sent: seq<Entry>)
    ensures StoreBatch.Store(t, m, Document(messageId, now, sent), true).1 == StoreBatch.Stored
            <==> m in t.masters && HostTables.BatchKey(m, messageId) !in t.batches
                 && (forall i, j :: 0 <= i < j < |sent| ==> sent[i].nodeId != sent[j].nodeId)
                 && (forall i :: 0 <= i < |sent| ==>
                       HostTables.Bound(t.slaves, m, sent[i].nodeId) && HostTables.InRange(ReadingOf(sent[i]))
                       && HostTables.MeasureKey(sent[i].nodeId, now) !in t.measurements)
  {
    hide StoreBatch.Store, HostTables.InRange, HostTables.Bound;
    var b := Document(messageId, now, sent);
    StoreBatch.StoresExactlyTheStorable(t, m, b, true);
    assert forall i :: 0 <= i < |sent| ==> b.readings[i] == ReadingOf(sent[i]) && b.readings[i].slave == sent[i].nodeId;
    assert forall i :: 0 <= i < |sent| ==> HostTables.Key(b, i) == HostTables.MeasureKey(sent[i].nodeId, now);
  }
}
