/** Whole runs of Host: master enrollments, slave enrollments and batch deliveries in any interleaving, with failures
    anywhere, over the shared tables and the broker.
  */
module HostRun {
  import opened Bytes
  import Dynsec
  import M = MasterEnrollment
  import S = SlaveEnrollment
  import B = BatchIngest

  datatype Host = Host(mp: M.Part, sp: S.Part, bp: B.Part)

  datatype Step = MasterStep(ms: M.Step) | SlaveStep(ss: S.Step) | BatchStep(bs: B.Step)

  function Next(h: Host, step: Step): Option<Host> {
    match step
    case MasterStep(ms) =>
      (match M.Next(h.mp, ms) case None => None case Some(q) => Some(h.(mp := q)))
    case SlaveStep(ss) =>
      (match S.Next(h.sp, h.mp.masters, ss) case None => None case Some(q) => Some(h.(sp := q)))
    case BatchStep(bs) =>
      (match B.Next(h.bp, h.mp.masters, h.sp.slaves, bs) case None => None case Some(q) => Some(h.(bp := q)))
  }

  /** The state after a run; None when some step of it was not possible. */
  function Run(h: Host, steps: seq<Step>): Option<Host> {
    if steps == [] then Some(h)
    else
      match Run(h, steps[..|steps| - 1])
      case None => None
      case Some(g) => Next(g, steps[|steps| - 1])
  }

  ghost predicate Inv(h: Host) {
    M.Inv(h.mp) && S.Inv(h.sp, h.mp.masters) && B.Inv(h.bp, h.sp.slaves) && B.KnownMasters(h.bp, h.mp.masters)
  }

  /** Empty tables, no calls, and a broker without master roles. */
  ghost predicate Initial(h: Host) {
    h.mp.masters == map[] && h.mp.calls == map[] && (forall m: string :: Dynsec.RoleName(m) !in h.mp.broker.roles)
    && h.sp == S.Part(map[], map[], map[]) && h.bp == B.Part(map[], map[], map[], map[], map[])
  }

  lemma InitialOk(h: Host)
    requires Initial(h)
    ensures Inv(h)
  {
  }

  /** What lasts through any run. */
  ghost predicate Lasts(g: Host, h: Host) {
    M.Grows(g.mp, h.mp)
    && (forall s :: s in g.sp.slaves ==>
          s in h.sp.slaves && h.sp.slaves[s].pot == g.sp.slaves[s].pot
          && h.sp.slaves[s].transferHash == g.sp.slaves[s].transferHash)
    && (forall c :: c in g.sp.calls ==>
        c in h.sp.calls && h.sp.calls[c].s == g.sp.calls[c].s && h.sp.calls[c].m == g.sp.calls[c].m)
    && g.bp.log.Keys <= h.bp.log.Keys
  }

  lemma StepKeeps(h: Host, step: Step)
    requires Inv(h) && Next(h, step).Some?
    ensures Inv(Next(h, step).value) && Lasts(h, Next(h, step).value)
  {
    hide M.Inv, S.Inv, B.Inv, M.Next, S.Next, B.Next;
    match step
    case MasterStep(ms) =>
      M.StepKeeps(h.mp, ms);
      S.MastersMayGrow(h.sp, h.mp.masters, M.Next(h.mp, ms).value.masters);
    case SlaveStep(ss) =>
      S.StepKeeps(h.sp, h.mp.masters, ss);
      B.SlavesMayGrow(h.bp, h.sp.slaves, S.Next(h.sp, h.mp.masters, ss).value.slaves);
    case BatchStep(bs) =>
      B.StepKeeps(h.bp, h.mp.masters, h.sp.slaves, bs);
      B.StepKeepsKnownMasters(h.bp, h.mp.masters, h.sp.slaves, bs);
  }

  lemma LastsOn(f: Host, g: Host, h: Host)
    requires Lasts(f, g) && Lasts(g, h)
    ensures Lasts(f, h)
  {
  }

  lemma {:induction false} RunKeeps(h: Host, steps: seq<Step>)
    requires Inv(h) && Run(h, steps).Some?
    ensures Inv(Run(h, steps).value) && Lasts(h, Run(h, steps).value)
    decreases |steps|
  {
    hide Inv;
    if steps != [] {
      var before := steps[..|steps| - 1];
      var g := Run(h, before).value;
      RunKeeps(h, before);
      StepKeeps(g, steps[|steps| - 1]);
      LastsOn(h, g, Run(h, steps).value);
    }
  }

  // ---------------------------------------------------------------------------
  // Main results
  // ---------------------------------------------------------------------------

  /** Once a call has returned credentials for a master, no other call ever does, and for the rest of the run the
      broker holds exactly the password returned, with that master's client id, role and topic. */
  lemma CredentialsLast(h: Host, before: seq<Step>, after: seq<Step>, c: nat)
    requires Initial(h) && Run(h, before).Some? && Run(Run(h, before).value, after).Some?
    requires var p := Run(h, before).value.mp; c in p.calls && p.calls[c].pc.Returned?
    ensures var p := Run(h, before).value.mp;
            var q := Run(Run(h, before).value, after).value.mp;
            c in q.calls && q.calls[c] == p.calls[c]
            && Dynsec.Provisioned(q.broker, p.calls[c].m, p.calls[c].password)
            && Dynsec.InForce(q.broker, p.calls[c].m, p.calls[c].password)
            && forall d :: d in q.calls && q.calls[d].pc.Returned? && q.calls[d].m == p.calls[c].m ==> d == c
  {
    hide Dynsec.InForce;
    var g := Run(h, before).value;
    InitialOk(h);
    RunKeeps(h, before);
    RunKeeps(g, after);
    var q := Run(g, after).value.mp;
    forall d | d in q.calls && q.calls[d].pc.Returned? && q.calls[d].m == g.mp.calls[c].m
      ensures d == c
    {
      M.CredentialsAreUnique(q, c, d);
    }
    M.CredentialsAreUnique(q, c, c);
  }

  /** In every committed state each pot has exactly one slave and each slave an enrolled master; pots and transfer
      tokens of slaves never change. */
  lemma SlavesKeepTheirPots(h: Host, before: seq<Step>, after: seq<Step>)
    requires Initial(h) && Run(h, before).Some? && Run(Run(h, before).value, after).Some?
    ensures var g := Run(h, before).value;
            && (forall pot :: pot in g.sp.pots ==> S.Planted(g.sp, pot))
            && (forall s, t :: s in g.sp.slaves && t in g.sp.slaves ==>
                  g.sp.slaves[s].pot == g.sp.slaves[t].pot ==> s == t)
            && (forall s :: s in g.sp.slaves ==>
                  g.sp.slaves[s].pot in g.sp.pots && S.MasterEnrolled(g.mp.masters, g.sp.slaves[s].master))
    ensures var g, k := Run(h, before).value, Run(Run(h, before).value, after).value;
            forall s :: s in g.sp.slaves ==>
              s in k.sp.slaves && k.sp.slaves[s].pot == g.sp.slaves[s].pot
              && k.sp.slaves[s].transferHash == g.sp.slaves[s].transferHash
  {
    InitialOk(h);
    RunKeeps(h, before);
    RunKeeps(Run(h, before).value, after);
  }

  /** In every committed state the batches and the measurements account for each other: a batch is there with every
      one of its readings, and a measurement came with exactly one committed batch that lists it. A delivery that
      ended without an error left its batch in the tables. */
  lemma BatchesAreWhole(h: Host, steps: seq<Step>)
    requires Initial(h) && Run(h, steps).Some?
    ensures var p := Run(h, steps).value.bp;
            p.batches.Keys == p.log.Keys
            && (forall key :: key in p.batches ==> B.Complete(p, key, p.log[key]))
            && (forall key :: key in p.measurements ==> B.Accounted(p, Run(h, steps).value.sp.slaves, key))
            && (forall c :: c in p.calls && p.calls[c].pc.Returned? ==> B.KeyOf(p.calls[c]) in p.batches)
  {
    InitialOk(h);
    RunKeeps(h, steps);
    var g := Run(h, steps).value;
    forall c | c in g.bp.calls && g.bp.calls[c].pc.Returned?
      ensures B.KeyOf(g.bp.calls[c]) in g.bp.batches
    {
      assert B.CallOk(g.bp, g.sp.slaves, g.bp.calls[c]);
    }
  }

  /** A batch that was once committed stays, and delivering it again in any later state changes no table. */
  lemma RedeliveryChangesNothing(h: Host, before: seq<Step>, after: seq<Step>, c: nat, acknowledged: bool)
    requires Initial(h) && Run(h, before).Some? && Run(Run(h, before).value, after).Some?
    requires var g, k := Run(h, before).value, Run(Run(h, before).value, after).value;
             c in k.bp.calls && k.bp.calls[c].pc.Start? && B.KeyOf(k.bp.calls[c]) in g.bp.batches
    ensures var k := Run(Run(h, before).value, after).value;
            Next(k, BatchStep(B.Move(c, acknowledged))) == Some(k.(bp := B.Goto(k.bp, c, B.Returned(false))))
  {
    var k := Run(Run(h, before).value, after).value;
    InitialOk(h);
    RunKeeps(h, before);
    RunKeeps(Run(h, before).value, after);
    B.RedeliveryIsNoOp(k.bp, k.mp.masters, k.sp.slaves, c, acknowledged);
  }

  // ---------------------------------------------------------------------------
  // Transfers
  // ---------------------------------------------------------------------------

  /** Every call of `k` that asks to bind slave `s` to master `m` had ended when the state was `g`. */
  ghost predicate NobodyAsksAgain(g: Host, k: Host, s: string, m: string) {
    forall c :: c in k.sp.calls && k.sp.calls[c].s == s && k.sp.calls[c].m == m ==>
      c in g.sp.calls && !S.InFlight(g.sp.calls[c])
  }

  /** The calls that had ended in `g` are as they were. */
  ghost predicate EndedAlike(g: Host, h: Host) {
    forall c :: c in g.sp.calls && !S.InFlight(g.sp.calls[c]) ==> c in h.sp.calls && h.sp.calls[c] == g.sp.calls[c]
  }

  lemma EndedStay(g: Host, h: Host, step: Step)
    requires EndedAlike(g, h) && Next(h, step).Some?
    ensures EndedAlike(g, Next(h, step).value)
  {
    hide S.Next, M.Next, B.Next, S.InFlight;
    if step.SlaveStep? {
      forall c | c in g.sp.calls && !S.InFlight(g.sp.calls[c])
        ensures c in Next(h, step).value.sp.calls && Next(h, step).value.sp.calls[c] == g.sp.calls[c]
      {
        S.EndedStays(h.sp, h.mp.masters, step.ss, c);
      }
    }
  }

  lemma StepStaysAway(g: Host, h: Host, step: Step, s: string, m: string)
    requires Inv(h) && Next(h, step).Some? && EndedAlike(g, h)
    requires s in h.sp.slaves && h.sp.slaves[s].master != m
    requires NobodyAsksAgain(g, Next(h, step).value, s, m)
    ensures s in Next(h, step).value.sp.slaves && Next(h, step).value.sp.slaves[s].master != m
  {
    hide S.Next, M.Next, B.Next, S.InFlight, S.Inv, M.Inv, B.Inv;
    if step.SlaveStep? {
      var after := Next(h, step).value;
      S.StepKeeps(h.sp, h.mp.masters, step.ss);
      if after.sp.slaves[s].master == m {
        var c := step.ss.c;
        assert c in after.sp.calls && after.sp.calls[c].s == s && after.sp.calls[c].m == m;
        S.EndedStays(h.sp, h.mp.masters, step.ss, c);
      }
    }
  }

  /** A slave that is bound elsewhere stays bound elsewhere as long as nobody asks again. */
  lemma {:induction false} RunStaysAway(g: Host, steps: seq<Step>, s: string, m: string)
    requires Inv(g) && Run(g, steps).Some? && s in g.sp.slaves && g.sp.slaves[s].master != m
    requires NobodyAsksAgain(g, Run(g, steps).value, s, m)
    ensures s in Run(g, steps).value.sp.slaves && Run(g, steps).value.sp.slaves[s].master != m
    ensures EndedAlike(g, Run(g, steps).value)
    decreases |steps|
  {
    hide Inv, Next, EndedAlike, NobodyAsksAgain;
    if steps == [] {
      AlikeToItself(g);
    } else {
      var before := steps[..|steps| - 1];
      var h := Run(g, before).value;
      RunKeeps(g, before);
      FewerAsked(g, h, steps[|steps| - 1], s, m);
      RunStaysAway(g, before, s, m);
      StepStaysAway(g, h, steps[|steps| - 1], s, m);
      EndedStay(g, h, steps[|steps| - 1]);
    }
  }

  lemma AlikeToItself(g: Host)
    ensures EndedAlike(g, g)
  {
  }

  lemma FewerAsked(g: Host, h: Host, step: Step, s: string, m: string)
    requires Inv(h) && Next(h, step).Some? && NobodyAsksAgain(g, Next(h, step).value, s, m)
    ensures NobodyAsksAgain(g, h, s, m)
  {
    hide Inv, Next, S.InFlight;
    StepKeeps(h, step);
  }

  /** While a slave is not bound to the master of an open batch, a reading for it that the batch has still to insert is
      refused and the whole batch with it, in every later state as long as nobody asks to bind it there. */
  lemma UnboundReadingIsRefused(h: Host, before: seq<Step>, g: Host, after: seq<Step>, k: Host, c: nat,
                                acknowledged: bool)
    requires Initial(h) && Run(h, before) == Some(g) && Run(g, after) == Some(k)
    requires c in k.bp.calls && k.bp.calls[c].pc.Inserting? && k.bp.calls[c].pc.k < |k.bp.calls[c].b.readings|
    requires var call := k.bp.calls[c];
             var s := call.b.readings[call.pc.k].slave;
             s in g.sp.slaves && g.sp.slaves[s].master != call.m && NobodyAsksAgain(g, k, s, call.m)
    ensures Next(k, BatchStep(B.Move(c, acknowledged))) == Some(k.(bp := B.Goto(k.bp, c, B.Stopped)))
  {
    hide Inv, B.Goto, NobodyAsksAgain;
    var call := k.bp.calls[c];
    InitialOk(h);
    RunKeeps(h, before);
    RunStaysAway(g, after, call.b.readings[call.pc.k].slave, call.m);
    B.ReadingNeedsItsBindingNow(k.bp, k.mp.masters, k.sp.slaves, c, acknowledged);
  }

  /** A slave was bound to `m`, then its transfer away was committed: from then on a reading for it that `m` has still
      to insert is refused and its whole batch with it, as long as nobody asks anew to move the slave back. */
  lemma TransferredReadingIsRefused(h: Host, earlier: seq<Step>, f: Host, transfer: seq<Step>, g: Host,
                                    after: seq<Step>, k: Host, c: nat, acknowledged: bool)
    requires Initial(h) && Run(h, earlier) == Some(f) && Run(f, transfer) == Some(g) && Run(g, after) == Some(k)
    requires c in k.bp.calls && k.bp.calls[c].pc.Inserting? && k.bp.calls[c].pc.k < |k.bp.calls[c].b.readings|
    requires var call := k.bp.calls[c];
             var s := call.b.readings[call.pc.k].slave;
             s in f.sp.slaves && f.sp.slaves[s].master == call.m
             && s in g.sp.slaves && g.sp.slaves[s].master != call.m && NobodyAsksAgain(g, k, s, call.m)
    ensures Next(k, BatchStep(B.Move(c, acknowledged))) == Some(k.(bp := B.Goto(k.bp, c, B.Stopped)))
  {
    hide Next;
    RunOfTwo(h, earlier, transfer);
    UnboundReadingIsRefused(h, earlier + transfer, g, after, k, c, acknowledged);
  }

  lemma {:induction false} RunOfTwo(h: Host, first: seq<Step>, second: seq<Step>)
    requires Run(h, first).Some?
    ensures Run(h, first + second) == Run(Run(h, first).value, second)
    decreases |second|
  {
    hide Next;
    if second == [] {
      assert first + [] == first;
    } else {
      RunOfTwo(h, first, second[..|second| - 1]);
      assert (first + second)[..|first + second| - 1] == first + second[..|second| - 1];
    }
  }

  /** The transfer of slave `s` to master `n`, from its first statement to its commit. */
  function TransferSteps(d: nat, s: string, n: string, nodeLabel: string, transferHash: string): seq<Step> {
    var move := SlaveStep(S.Move(d, 0, true));
    [SlaveStep(S.Begin(d, s, n, nodeLabel, transferHash)), move, move, move, move]
  }

  lemma RunMore(h: Host, steps: seq<Step>, g: Host, step: Step, after: Host)
    requires Run(h, steps) == Some(g) && Next(g, step) == Some(after)
    ensures Run(h, steps + [step]) == Some(after)
  {
    hide Next;
    assert (steps + [step])[..|steps|] == steps;
  }

  /** Such transfers happen, and bind: from every state in which nobody has the slave's row locked and no call is asking
      to bind it to its present master, its transfer to another enrolled master goes through, and leaves everything that
      `TransferredReadingIsRefused` needs. */
  lemma TransferGoesThrough(f: Host, d: nat, s: string, n: string, nodeLabel: string) returns (g: Host)
    requires s in f.sp.slaves && d !in f.sp.calls && !S.RowLocked(f.sp, s) && f.sp.slaves[s].master != n
    requires n in f.mp.masters && f.mp.masters[n].enrolled && !f.mp.masters[n].disabled
    requires NobodyAsksAgain(f, f, s, f.sp.slaves[s].master)
    ensures Run(f, TransferSteps(d, s, n, nodeLabel, f.sp.slaves[s].transferHash)) == Some(g)
    ensures g.sp.slaves == f.sp.slaves[s := f.sp.slaves[s].(master := n, nodeLabel := nodeLabel)]
    ensures g.bp == f.bp && g.mp == f.mp && NobodyAsksAgain(g, g, s, f.sp.slaves[s].master)
  {
    hide S.Next, S.RowLocked, Run;
    var begun, checked, locked, moved, end := S.UnhinderedTransfer(f.sp, f.mp.masters, d, s, n, nodeLabel);
    g := f.(sp := end);
    var begin := SlaveStep(S.Begin(d, s, n, nodeLabel, f.sp.slaves[s].transferHash));
    var move := SlaveStep(S.Move(d, 0, true));
    NoStep(f);
    RunMore(f, [], f, begin, f.(sp := begun));
    RunMore(f, [] + [begin], f.(sp := begun), move, f.(sp := checked));
    RunMore(f, [] + [begin] + [move], f.(sp := checked), move, f.(sp := locked));
    RunMore(f, [] + [begin] + [move] + [move], f.(sp := locked), move, f.(sp := moved));
    RunMore(f, [] + [begin] + [move] + [move] + [move], f.(sp := moved), move, g);
    assert [] + [begin] + [move] + [move] + [move] + [move]
        == TransferSteps(d, s, n, nodeLabel, f.sp.slaves[s].transferHash);
  }

  lemma NoStep(h: Host)
    ensures Run(h, []) == Some(h)
  {
  }

  // ---------------------------------------------------------------------------
  // At-least-once delivery
  // ---------------------------------------------------------------------------

  /** The step belongs to one of these deliveries. */
  predicate Concerns(step: Step, dropped: set<nat>) {
    step.BatchStep? && step.bs.c in dropped
  }

  function WithoutSteps(steps: seq<Step>, dropped: set<nat>): seq<Step> {
    if steps == [] then []
    else
      WithoutSteps(steps[..|steps| - 1], dropped)
      + if Concerns(steps[|steps| - 1], dropped) then [] else [steps[|steps| - 1]]
  }

  function WithoutCalls(h: Host, dropped: set<nat>): Host {
    h.(bp := B.Without(h.bp, dropped))
  }

  lemma IdleBefore(h: Host, step: Step, dropped: set<nat>)
    requires Next(h, step).Some? && B.AllIdle(Next(h, step).value.bp, dropped)
    ensures B.AllIdle(h.bp, dropped)
  {
    hide B.Next, M.Next, S.Next, B.Idle;
    if step.BatchStep? {
      forall c | c in dropped
        ensures B.Idle(h.bp, c)
      {
        B.IdleBefore(h.bp, h.mp.masters, h.sp.slaves, step.bs, c);
      }
    }
  }

  lemma {:induction false} RunWithoutIdle(h: Host, steps: seq<Step>, dropped: set<nat>)
    requires Run(h, steps).Some? && B.AllIdle(Run(h, steps).value.bp, dropped)
    ensures Run(WithoutCalls(h, dropped), WithoutSteps(steps, dropped))
              == Some(WithoutCalls(Run(h, steps).value, dropped))
    decreases |steps|
  {
    hide B.Next, M.Next, S.Next, B.AllIdle, B.Without;
    if steps != [] {
      var before, step := steps[..|steps| - 1], steps[|steps| - 1];
      var g := Run(h, before).value;
      IdleBefore(g, step, dropped);
      RunWithoutIdle(h, before, dropped);
      var kept := WithoutSteps(before, dropped);
      if Concerns(step, dropped) {
        B.DroppedStep(g.bp, g.mp.masters, g.sp.slaves, step.bs, dropped);
        assert kept + [] == kept;
      } else {
        if step.BatchStep? {
          B.KeptStep(g.bp, g.mp.masters, g.sp.slaves, step.bs, dropped);
        }
        WithoutKeepsTheTables(g, dropped);
        RunMore(WithoutCalls(h, dropped), kept, WithoutCalls(g, dropped), step,
                WithoutCalls(Run(h, steps).value, dropped));
      }
    }
  }

  lemma WithoutKeepsTheTables(h: Host, dropped: set<nat>)
    ensures var g := WithoutCalls(h, dropped);
            g.mp == h.mp && g.sp == h.sp && g.bp.batches == h.bp.batches && g.bp.measurements == h.bp.measurements
  {
  }

  /** The deliveries that found their batch in the tables. */
  function Redeliveries(h: Host): set<nat> {
    set c | c in h.bp.calls && h.bp.calls[c].pc == B.Returned(false)
  }

  /** At-least-once delivery is exactly-once storage, in any interleaving with enrollments, transfers and other
      deliveries: without the steps of all repeated deliveries the run is possible just the same and ends in the same
      tables, broker and other calls. */
  lemma RepeatsCanBeDropped(h: Host, steps: seq<Step>)
    requires Initial(h) && Run(h, steps).Some?
    ensures var k := Run(h, steps).value;
            var once := Run(h, WithoutSteps(steps, Redeliveries(k)));
            && once == Some(WithoutCalls(k, Redeliveries(k)))
            && once.value.mp == k.mp && once.value.sp == k.sp
            && once.value.bp.batches == k.bp.batches && once.value.bp.measurements == k.bp.measurements
  {
    hide Run, Next, B.Without;
    var k := Run(h, steps).value;
    RunWithoutIdle(h, steps, Redeliveries(k));
    NoCallsToDrop(h, Redeliveries(k));
    WithoutKeepsTheTables(k, Redeliveries(k));
  }

  lemma NoCallsToDrop(h: Host, dropped: set<nat>)
    requires h.bp.calls == map[]
    ensures WithoutCalls(h, dropped) == h
  {
  }
}
