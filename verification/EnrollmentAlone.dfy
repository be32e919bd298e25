/** The statement-by-statement enrollments of `MasterEnrollment` and `SlaveEnrollment`, run without interference, end as
    the single calls of `Enrollment.Service` do.
  */
module EnrollmentAlone {
  import opened Bytes
  import opened HostTables
  import Dynsec
  import E = Enrollment
  import M = MasterEnrollment
  import S = SlaveEnrollment

  // ---------------------------------------------------------------------------
  // Masters
  // ---------------------------------------------------------------------------

  /** The next step of a call alone: the k-th command has its fate, the transaction its ending. */
  function MasterStep(call: M.Call, c: nat, fates: seq<Dynsec.Fate>, ending: E.Ending): M.Step
    requires |fates| == 4
  {
    match call.pc
    case Sending(k) => M.Move(c, if k < 4 then fates[k] else Dynsec.Answered, true)
    case Updated => if ending == E.RolledBack then M.Abort(c) else M.Move(c, Dynsec.Answered, ending == E.Committed)
    case _ => M.Move(c, Dynsec.Answered, true)
  }

  /** The part after at most `n` steps of the call `c` alone. */
  function MasterAlone(p: M.Part, c: nat, fates: seq<Dynsec.Fate>, ending: E.Ending, n: nat): M.Part
    requires |fates| == 4
    decreases n
  {
    if n == 0 || c !in p.calls then p
    else
      match M.Next(p, MasterStep(p.calls[c], c, fates, ending))
      case None => p
      case Some(q) => MasterAlone(q, c, fates, ending, n - 1)
  }

  /** How a call ends: with this pc and this table of masters. */
  ghost predicate MasterEnds(p: M.Part, c: nat, fates: seq<Dynsec.Fate>, ending: E.Ending, n: nat, returned: bool,
                             masters: map<string, Master>)
    requires |fates| == 4
  {
    var q := MasterAlone(p, c, fates, ending, n);
    c in q.calls && !M.InFlight(q.calls[c]) && (q.calls[c].pc.Returned? <==> returned) && q.masters == masters
  }

  lemma StoppedEnds(p: M.Part, c: nat, fates: seq<Dynsec.Fate>, ending: E.Ending, n: nat)
    requires |fates| == 4 && c in p.calls && p.calls[c].pc.Stopped?
    ensures MasterEnds(p, c, fates, ending, n, false, p.masters)
  {
  }

  /** Provisioned: the update and the end of the transaction are left. */
  lemma ReadyEnds(p: M.Part, c: nat, fates: seq<Dynsec.Fate>, ending: E.Ending, n: nat)
    requires |fates| == 4 && n >= 2 && c in p.calls && p.calls[c].pc.Ready? && p.calls[c].m in p.masters
    ensures var m := p.calls[c].m;
            MasterEnds(p, c, fates, ending, n, ending == E.Committed,
                       if ending == E.RolledBack then p.masters else p.masters[m := M.Enrolled(p.masters[m], m)])
  {
    var q := M.Next(p, MasterStep(p.calls[c], c, fates, ending)).value;
    assert MasterAlone(p, c, fates, ending, n) == MasterAlone(q, c, fates, ending, n - 1);
    var r := M.Next(q, MasterStep(q.calls[c], c, fates, ending)).value;
    assert MasterAlone(q, c, fates, ending, n - 1) == MasterAlone(r, c, fates, ending, n - 2);
  }

  /** All commands from the k-th on that have to be sent are answered. */
  ghost predicate AnsweredFrom(fates: seq<Dynsec.Fate>, k: nat, known: bool)
    requires |fates| == 4
  {
    (k <= 0 ==> fates[0].Answered?) && (k <= 1 ==> fates[1].Answered?) && (k <= 2 ==> fates[2].Answered?)
    && (k == 3 || (k < 3 && known) ==> fates[3].Answered?)
  }

  /** About to send the k-th command, with what it needs on the broker. */
  ghost predicate CanSend(p: M.Part, c: nat, k: nat) {
    k < 4 && c in p.calls && p.calls[c].pc == M.Sending(k) && p.calls[c].m in p.masters
    && (k >= 1 ==> Dynsec.RoleName(p.calls[c].m) in p.broker.roles)
    && (k == 3 ==> p.calls[c].m in p.broker.clients)
  }

  lemma SendsOne(p: M.Part, c: nat, fates: seq<Dynsec.Fate>, ending: E.Ending, k: nat)
    requires |fates| == 4 && CanSend(p, c, k)
    ensures var step := MasterStep(p.calls[c], c, fates, ending);
            M.Next(p, step).Some?
            && var q := M.Next(p, step).value;
               c in q.calls && q.masters == p.masters && q.calls[c].m == p.calls[c].m
               && (p.calls[c].m in q.broker.clients <==>
                   p.calls[c].m in p.broker.clients || (k == 2 && !fates[2].LostBefore?))
               && (!fates[k].Answered? ==> q.calls[c].pc.Stopped?)
               && (fates[k].Answered? ==>
                     if k == 3 || (k == 2 && p.calls[c].m !in p.broker.clients) then q.calls[c].pc.Ready?
                     else CanSend(q, c, k + 1))
  {
  }

  lemma {:induction false} SendingEnds(p: M.Part, c: nat, fates: seq<Dynsec.Fate>, ending: E.Ending, k: nat, n: nat)
    requires |fates| == 4 && n >= 7 - k && CanSend(p, c, k)
    ensures var m := p.calls[c].m;
            var provisioned := AnsweredFrom(fates, k, m in p.broker.clients);
            MasterEnds(p, c, fates, ending, n, provisioned && ending == E.Committed,
                       if provisioned && ending != E.RolledBack then p.masters[m := M.Enrolled(p.masters[m], m)]
                       else p.masters)
    decreases 4 - k
  {
    hide M.Next, MasterEnds, MasterStep, M.Enrolled;
    SendsOne(p, c, fates, ending, k);
    var q := M.Next(p, MasterStep(p.calls[c], c, fates, ending)).value;
    OneStep(p, q, c, fates, ending, n);
    if q.calls[c].pc.Stopped? {
      StoppedEnds(q, c, fates, ending, n - 1);
    } else if q.calls[c].pc.Ready? {
      ReadyEnds(q, c, fates, ending, n - 1);
    } else {
      SendingEnds(q, c, fates, ending, k + 1, n - 1);
    }
  }

  lemma OneStep(p: M.Part, q: M.Part, c: nat, fates: seq<Dynsec.Fate>, ending: E.Ending, n: nat)
    requires |fates| == 4 && n > 0 && c in p.calls && M.Next(p, MasterStep(p.calls[c], c, fates, ending)) == Some(q)
    ensures MasterAlone(p, c, fates, ending, n) == MasterAlone(q, c, fates, ending, n - 1)
    ensures forall returned, masters :: MasterEnds(q, c, fates, ending, n - 1, returned, masters)
              ==> MasterEnds(p, c, fates, ending, n, returned, masters)
  {
    hide M.Next, MasterStep;
  }

  /** A call alone returns credentials, and changes the row, exactly when the service's method does. */
  lemma AloneIsEnrollMaster(p: M.Part, c: nat, fates: seq<Dynsec.Fate>, ending: E.Ending)
    requires |fates| == 4 && c in p.calls && p.calls[c].pc.Start? && !M.Locked(p, p.calls[c].m)
    ensures var call := p.calls[c];
            var provisioned := E.Grants(p.masters, call.m, call.tokenHash)
                               && Dynsec.AllAnswered(fates, call.m in p.broker.clients);
            MasterEnds(p, c, fates, ending, 8, provisioned && ending == E.Committed,
                       if provisioned && ending != E.RolledBack
                       then p.masters[call.m := M.Enrolled(p.masters[call.m], call.m)] else p.masters)
  {
    hide MasterEnds, M.Enrolled;
    var call := p.calls[c];
    var q := M.Goto(p, c, M.Checked(p.masters, call));
    assert M.Next(p, MasterStep(call, c, fates, ending)) == Some(q);
    OneStep(p, q, c, fates, ending, 8);
    if q.calls[c].pc.Stopped? {
      StoppedEnds(q, c, fates, ending, 7);
    } else {
      SendingEnds(q, c, fates, ending, 0, 7);
    }
  }

  lemma {:induction false} AloneKeeps(p: M.Part, c: nat, fates: seq<Dynsec.Fate>, ending: E.Ending, n: nat)
    requires |fates| == 4 && M.Inv(p) && c in p.calls
    ensures var q := MasterAlone(p, c, fates, ending, n);
            M.Inv(q) && c in q.calls && q.calls[c].m == p.calls[c].m && q.calls[c].password == p.calls[c].password
    decreases n
  {
    hide M.Inv, M.Next;
    var step := MasterStep(p.calls[c], c, fates, ending);
    if n > 0 && M.Next(p, step).Some? {
      M.StepKeeps(p, step);
      StepKeepsTheCall(p, c, fates, ending);
      AloneKeeps(M.Next(p, step).value, c, fates, ending, n - 1);
    }
  }

  lemma StepKeepsTheCall(p: M.Part, c: nat, fates: seq<Dynsec.Fate>, ending: E.Ending)
    requires |fates| == 4 && c in p.calls && M.Next(p, MasterStep(p.calls[c], c, fates, ending)).Some?
    ensures var q := M.Next(p, MasterStep(p.calls[c], c, fates, ending)).value;
            c in q.calls && q.calls[c].m == p.calls[c].m && q.calls[c].password == p.calls[c].password
  {
    hide M.Checked, M.Locked, M.AfterReply, Dynsec.Execute, M.Enrolled;
  }

  /** The step ends the call before its commit: a lost or refused command, a failed statement, a broken connection. */
  ghost predicate FailsEarly(p: M.Part, s: M.Step, c: nat) {
    c in p.calls && M.Holds(p.calls[c]) && (s == M.Abort(c) || (s.Move? && s.c == c && !p.calls[c].pc.Updated?))
    && M.Next(p, s).Some? && M.Next(p, s).value.calls[c].pc.Stopped?
  }

  lemma FailureReleases(p: M.Part, s: M.Step, c: nat)
    requires M.Inv(p) && FailsEarly(p, s, c)
    ensures var q := M.Next(p, s).value;
            q.masters == p.masters && !M.Locked(q, p.calls[c].m)
            && E.Grants(q.masters, p.calls[c].m, p.calls[c].tokenHash)
  {
    hide Dynsec.Execute, M.AfterReply, M.Checked, M.Enrolled;
    var q := M.Next(p, s).value;
    assert M.RowFits(p.masters, p.calls[c]);
    forall d | d in q.calls && M.Holds(q.calls[d])
      ensures q.calls[d].m != p.calls[c].m
    {
      assert d != c && d in p.calls && q.calls[d] == p.calls[d];
    }
  }

  /** However far a call had come when it failed before its commit, and whatever it left on the broker: a new call with
      the same token returns credentials if its commands are answered and its commit succeeds, and they are in force. */
  lemma FailureCanBeRetried(p: M.Part, s: M.Step, c: nat, d: nat, password: string, fates: seq<Dynsec.Fate>)
    requires M.Inv(p) && FailsEarly(p, s, c) && d !in M.Next(p, s).value.calls
    requires |fates| == 4 && Dynsec.AllAnswered(fates, p.calls[c].m in M.Next(p, s).value.broker.clients)
    ensures var m := p.calls[c].m;
            var begin := M.Begin(d, m, p.calls[c].tokenHash, password);
            M.Next(M.Next(p, s).value, begin).Some?
            && var end := MasterAlone(M.Next(M.Next(p, s).value, begin).value, d, fates, E.Committed, 8);
               && d in end.calls && end.calls[d].pc.Returned? && Dynsec.Provisioned(end.broker, m, password)
               && Dynsec.InForce(end.broker, m, password)
               && end.masters == p.masters[m := M.Enrolled(p.masters[m], m)]
  {
    hide M.Inv, M.Enrolled, MasterAlone, M.Checked, Dynsec.AllAnswered;
    var q := M.Next(p, s).value;
    var m := p.calls[c].m;
    var begin := M.Begin(d, m, p.calls[c].tokenHash, password);
    FailureReleases(p, s, c);
    M.StepKeeps(p, s);
    var r := M.Next(q, begin).value;
    M.StepKeeps(q, begin);
    assert !M.Locked(r, m);
    AloneIsEnrollMaster(r, d, fates, E.Committed);
    AloneKeeps(r, d, fates, E.Committed, 8);
    M.CredentialsAreUnique(MasterAlone(r, d, fates, E.Committed, 8), d, d);
  }

  // ---------------------------------------------------------------------------
  // Slaves
  // ---------------------------------------------------------------------------

  function SlaveStep(call: S.Call, c: nat, pot: nat, ending: E.Ending): S.Step {
    if ending == E.RolledBack && (call.pc.SlaveInserted? || call.pc.Moved?) then S.Abort(c)
    else S.Move(c, pot, ending == E.Committed)
  }

  function SlaveAlone(p: S.Part, masters: map<string, Master>, c: nat, pot: nat, ending: E.Ending, n: nat): S.Part
    decreases n
  {
    if n == 0 || c !in p.calls then p
    else
      match S.Next(p, masters, SlaveStep(p.calls[c], c, pot, ending))
      case None => p
      case Some(q) => SlaveAlone(q, masters, c, pot, ending, n - 1)
  }

  ghost predicate NobodyElse(p: S.Part, c: nat) {
    forall d :: d in p.calls && d != c ==> !S.HoldsRow(p.calls[d]) && !S.HasPot(p.calls[d])
  }

  lemma SlaveStops(p: S.Part, masters: map<string, Master>, c: nat, pot: nat, ending: E.Ending, n: nat)
    requires c in p.calls && !S.InFlight(p.calls[c])
    ensures SlaveAlone(p, masters, c, pot, ending, n) == p
  {
  }

  lemma SlaveSteps(p: S.Part, q: S.Part, masters: map<string, Master>, c: nat, pot: nat, ending: E.Ending, n: nat)
    requires n > 0 && c in p.calls && S.Next(p, masters, SlaveStep(p.calls[c], c, pot, ending)) == Some(q)
    ensures SlaveAlone(p, masters, c, pot, ending, n) == SlaveAlone(q, masters, c, pot, ending, n - 1)
  {
  }

  /** The tables and the verdict of a call alone that found its master enrolled and no row for the slave. */
  lemma CreatesAlone(p: S.Part, masters: map<string, Master>, c: nat, pot: nat, ending: E.Ending)
    requires c in p.calls && p.calls[c].pc.Absent? && NobodyElse(p, c) && p.calls[c].s !in p.slaves && pot !in p.pots
    ensures var call := p.calls[c];
            var q := SlaveAlone(p, masters, c, pot, ending, 3);
            c in q.calls && (q.calls[c].pc.Returned? <==> ending == E.Committed)
            && q.pots == (if ending != E.RolledBack then p.pots[pot := call.nodeLabel] else p.pots)
            && q.slaves == (if ending != E.RolledBack
                            then p.slaves[call.s := Slave(call.m, pot, call.nodeLabel, call.transferHash, false)]
                            else p.slaves)
  {
    var call := p.calls[c];
    assert !S.PotPending(p, pot);
    var a := S.Goto(p, c, S.PotInserted(pot));
    SlaveSteps(p, a, masters, c, pot, ending, 3);
    assert !S.SlavePending(a, call.s);
    var b := S.Goto(a, c, S.SlaveInserted(pot));
    SlaveSteps(a, b, masters, c, pot, ending, 2);
    var d := S.Next(b, masters, SlaveStep(b.calls[c], c, pot, ending)).value;
    SlaveSteps(b, d, masters, c, pot, ending, 1);
  }

  lemma MovesAlone(p: S.Part, masters: map<string, Master>, c: nat, pot: nat, ending: E.Ending)
    requires c in p.calls && p.calls[c].pc.Locked? && p.calls[c].s in p.slaves
    ensures var call := p.calls[c];
            var q := SlaveAlone(p, masters, c, pot, ending, 2);
            c in q.calls && (q.calls[c].pc.Returned? <==> ending == E.Committed) && q.pots == p.pots
            && q.slaves == (if ending != E.RolledBack
                            then p.slaves[call.s := p.slaves[call.s].(master := call.m, nodeLabel := call.nodeLabel)]
                            else p.slaves)
  {
    var a := S.Goto(p, c, S.Moved);
    SlaveSteps(p, a, masters, c, pot, ending, 2);
    var b := S.Next(a, masters, SlaveStep(a.calls[c], c, pot, ending)).value;
    SlaveSteps(a, b, masters, c, pot, ending, 1);
  }

  /** A call alone ends with the tables and the verdict of the service's method; a pot that is in use blocks it. */
  lemma AloneIsEnrollSlave(p: S.Part, masters: map<string, Master>, c: nat, pot: nat, ending: E.Ending)
    requires c in p.calls && p.calls[c].pc.Start? && NobodyElse(p, c)
    ensures var call := p.calls[c];
            var asked := call.m in masters && !masters[call.m].disabled && masters[call.m].enrolled;
            var created := asked && call.s !in p.slaves && pot !in p.pots;
            var moved := asked && call.s in p.slaves && p.slaves[call.s].transferHash == call.transferHash;
            var n := if call.s in p.slaves then 4 else 5;
            var q := SlaveAlone(p, masters, c, pot, ending, n);
            && c in q.calls && (q.calls[c].pc.Returned? <==> (created || moved) && ending == E.Committed)
            && q.pots == (if created && ending != E.RolledBack then p.pots[pot := call.nodeLabel] else p.pots)
            && q.slaves == (if ending == E.RolledBack || !(created || moved) then p.slaves
                            else if created then
                              p.slaves[call.s := Slave(call.m, pot, call.nodeLabel, call.transferHash, false)]
                            else p.slaves[call.s := p.slaves[call.s].(master := call.m, nodeLabel := call.nodeLabel)])
  {
    hide SlaveAlone;
    var call := p.calls[c];
    var n := if call.s in p.slaves then 4 else 5;
    var a := S.Goto(p, c, S.CheckMaster(masters, call.m));
    SlaveSteps(p, a, masters, c, pot, ending, n);
    if !a.calls[c].pc.Checked? {
      SlaveStops(a, masters, c, pot, ending, n - 1);
    } else if call.s !in p.slaves {
      var b := S.Goto(a, c, S.Absent);
      SlaveSteps(a, b, masters, c, pot, ending, 4);
      if pot !in p.pots {
        CreatesAlone(b, masters, c, pot, ending);
      } else {
        Blocked(b, masters, c, pot, ending, 3);
      }
    } else {
      assert !S.RowLocked(a, call.s);
      var b := S.Next(a, masters, SlaveStep(a.calls[c], c, pot, ending)).value;
      SlaveSteps(a, b, masters, c, pot, ending, 3);
      if b.calls[c].pc.Locked? {
        MovesAlone(b, masters, c, pot, ending);
      } else {
        SlaveStops(b, masters, c, pot, ending, 2);
      }
    }
  }

  lemma Blocked(p: S.Part, masters: map<string, Master>, c: nat, pot: nat, ending: E.Ending, n: nat)
    requires c in p.calls && p.calls[c].pc.Absent? && pot in p.pots
    ensures SlaveAlone(p, masters, c, pot, ending, n) == p
  {
  }
}
