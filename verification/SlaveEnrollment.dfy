/** Concurrent calls of EnrollSlave: vps/internal/store/store.go:119-171, one statement at a time. The check of the
    master takes no lock; the slave row is locked only when it exists; a uuid and a slave id that another
    transaction has inserted but not committed make the next insert of the same key wait.
  */
module SlaveEnrollment {
  import opened Bytes
  import opened HostTables

  datatype Error = MasterNotFound | MasterNotEnrolled | InvalidTransfer | Database

  datatype Pc =
    | Start
    | Checked                    // the master was found enrolled
    | Absent                     // SELECT .. FOR UPDATE found no row
    | PotInserted(pot: nat)      // and the pot is inserted
    | SlaveInserted(pot: nat)    // and so is the slave
    | Locked                     // the row is locked and the transfer token fits
    | Moved                      // and the row is updated
    | Returned
    | Stopped(error: Error)

  datatype Call = Call(s: string, m: string, nodeLabel: string, transferHash: string, pc: Pc)

  datatype Part = Part(pots: map<nat, string>, slaves: map<string, Slave>, calls: map<nat, Call>)

  predicate HoldsRow(call: Call) {
    call.pc.Locked? || call.pc.Moved?
  }

  predicate HasPot(call: Call) {
    call.pc.PotInserted? || call.pc.SlaveInserted?
  }

  predicate RowLocked(p: Part, s: string) {
    exists c :: c in p.calls && HoldsRow(p.calls[c]) && p.calls[c].s == s
  }

  predicate PotPending(p: Part, pot: nat) {
    exists c :: c in p.calls && HasPot(p.calls[c]) && p.calls[c].pc.pot == pot
  }

  predicate SlavePending(p: Part, s: string) {
    exists c :: c in p.calls && p.calls[c].pc.SlaveInserted? && p.calls[c].s == s
  }

  predicate InFlight(call: Call) {
    !call.pc.Returned? && !call.pc.Stopped?
  }

  function Goto(p: Part, c: nat, pc: Pc): Part
    requires c in p.calls
  {
    p.(calls := p.calls[c := p.calls[c].(pc := pc)])
  }

  function CheckMaster(masters: map<string, Master>, m: string): Pc {
    if m !in masters || masters[m].disabled then Stopped(MasterNotFound)
    else if !masters[m].enrolled then Stopped(MasterNotEnrolled)
    else Checked
  }

  /** The two rows of a new slave, as they become visible at commit. */
  function Created(p: Part, call: Call, pot: nat): Part {
    p.(pots := p.pots[pot := call.nodeLabel],
       slaves := p.slaves[call.s := Slave(call.m, pot, call.nodeLabel, call.transferHash, false)])
  }

  /** The UPDATE of a transfer, likewise. */
  function Transferred(p: Part, call: Call): Part
    requires call.s in p.slaves
  {
    p.(slaves := p.slaves[call.s := p.slaves[call.s].(master := call.m, nodeLabel := call.nodeLabel)])
  }

  /** `pot` is the uuid drawn when a pot is inserted; drawing one in use is a failed statement, an `Abort`. */
  datatype Step =
    | SetDisabled(s: string, disabled: bool)
    | Begin(c: nat, s: string, m: string, nodeLabel: string, transferHash: string)
    | Move(c: nat, pot: nat, acknowledged: bool)
    | Abort(c: nat)

  function Next(p: Part, masters: map<string, Master>, step: Step): Option<Part> {
    match step
    case SetDisabled(s, disabled) =>
      if s !in p.slaves || RowLocked(p, s) then None
      else Some(p.(slaves := p.slaves[s := p.slaves[s].(disabled := disabled)]))
    case Begin(c, s, m, nodeLabel, transferHash) =>
      if c in p.calls then None else Some(p.(calls := p.calls[c := Call(s, m, nodeLabel, transferHash, Start)]))
    case Abort(c) =>
      if c !in p.calls || !InFlight(p.calls[c]) then None else Some(Goto(p, c, Stopped(Database)))
    case Move(c, pot, acknowledged) =>
      if c !in p.calls then None
      else
        var call := p.calls[c];
        match call.pc
        case Start => Some(Goto(p, c, CheckMaster(masters, call.m)))
        case Checked =>
          if call.s !in p.slaves then Some(Goto(p, c, Absent))
          else if RowLocked(p, call.s) then None
          else if p.slaves[call.s].transferHash != call.transferHash then Some(Goto(p, c, Stopped(InvalidTransfer)))
          else Some(Goto(p, c, Locked))
        case Absent =>
          if pot in p.pots || PotPending(p, pot) then None else Some(Goto(p, c, PotInserted(pot)))
        case PotInserted(own) =>
          if SlavePending(p, call.s) then None
          else if call.s in p.slaves then Some(Goto(p, c, Stopped(Database)))
          else Some(Goto(p, c, SlaveInserted(own)))
        case SlaveInserted(own) =>
          Some(Goto(Created(p, call, own), c, if acknowledged then Returned else Stopped(Database)))
        case Locked => Some(Goto(p, c, Moved))
        case Moved =>
          if call.s !in p.slaves then None
          else Some(Goto(Transferred(p, call), c, if acknowledged then Returned else Stopped(Database)))
        case Returned => None
        case Stopped(_) => None
  }

  // ---------------------------------------------------------------------------
  // The invariant
  // ---------------------------------------------------------------------------

  ghost predicate MasterEnrolled(masters: map<string, Master>, m: string) {
    m in masters && masters[m].enrolled
  }

  /** Every slave has its own pot and an enrolled master. */
  ghost predicate SlavesOk(p: Part, masters: map<string, Master>) {
    (forall s :: s in p.slaves ==> p.slaves[s].pot in p.pots && MasterEnrolled(masters, p.slaves[s].master))
    && (forall s, t :: s in p.slaves && t in p.slaves && p.slaves[s].pot == p.slaves[t].pot ==> s == t)
  }

  ghost predicate Planted(p: Part, pot: nat) {
    exists s :: s in p.slaves && p.slaves[s].pot == pot
  }

  ghost predicate NoOrphans(p: Part) {
    forall pot :: pot in p.pots ==> Planted(p, pot)
  }

  ghost predicate CallOk(p: Part, masters: map<string, Master>, call: Call) {
    (InFlight(call) && !call.pc.Start? ==> MasterEnrolled(masters, call.m))
    && (HasPot(call) ==> call.pc.pot !in p.pots)
    && (call.pc.SlaveInserted? ==> call.s !in p.slaves)
    && (HoldsRow(call) ==> call.s in p.slaves && p.slaves[call.s].transferHash == call.transferHash)
  }

  ghost predicate Compatible(c: Call, d: Call) {
    !(HoldsRow(c) && HoldsRow(d) && c.s == d.s)
    && !(HasPot(c) && HasPot(d) && c.pc.pot == d.pc.pot)
    && !(c.pc.SlaveInserted? && d.pc.SlaveInserted? && c.s == d.s)
  }

  ghost predicate Exclusive(calls: map<nat, Call>) {
    forall c, d :: c in calls && d in calls && c != d ==> Compatible(calls[c], calls[d])
  }

  /** In every committed state each pot belongs to exactly one slave, and each slave to an enrolled master. */
  ghost predicate Inv(p: Part, masters: map<string, Master>) {
    SlavesOk(p, masters) && NoOrphans(p) && Exclusive(p.calls)
    && (forall c :: c in p.calls ==> CallOk(p, masters, p.calls[c]))
  }

  /** A slave keeps its pot and its transfer token for ever, and changes master only by the transaction of a call
      that presented the token. */
  ghost predicate Keeps(p: Part, q: Part, step: Step) {
    (forall s :: s in p.slaves ==>
       s in q.slaves && q.slaves[s].pot == p.slaves[s].pot && q.slaves[s].transferHash == p.slaves[s].transferHash
       && (q.slaves[s].master != p.slaves[s].master ==>
             step.Move? && step.c in p.calls && p.calls[step.c].s == s && p.calls[step.c].m == q.slaves[s].master
             && p.calls[step.c].transferHash == p.slaves[s].transferHash))
    && p.pots.Keys <= q.pots.Keys
    && (forall c :: c in p.calls ==> c in q.calls && q.calls[c].s == p.calls[c].s && q.calls[c].m == p.calls[c].m)
  }

  // ---------------------------------------------------------------------------
  // Every step keeps it
  // ---------------------------------------------------------------------------

  lemma StepKeeps(p: Part, masters: map<string, Master>, step: Step)
    requires Inv(p, masters) && Next(p, masters, step).Some?
    ensures Inv(Next(p, masters, step).value, masters) && Keeps(p, Next(p, masters, step).value, step)
  {
    var q := Next(p, masters, step).value;
    if step.Move? && p.calls[step.c].pc.SlaveInserted? {
      CreateKeeps(p, masters, step);
    } else if step.Move? && p.calls[step.c].pc.Moved? {
      TransferKeeps(p, masters, step);
    } else {
      SmallStepKeeps(p, masters, step);
    }
  }

  lemma CreateKeeps(p: Part, masters: map<string, Master>, step: Step)
    requires Inv(p, masters) && step.Move? && Next(p, masters, step).Some? && p.calls[step.c].pc.SlaveInserted?
    ensures Inv(Next(p, masters, step).value, masters) && Keeps(p, Next(p, masters, step).value, step)
  {
    hide Created, Goto, SlavesOk, NoOrphans, Exclusive, InFlight, RowLocked, PotPending, SlavePending, CheckMaster,
      Keeps;
    var c, call := step.c, p.calls[step.c];
    var end := if step.acknowledged then Returned else Stopped(Database);
    assert CallOk(p, masters, call);
    CreatedTables(p, masters, c);
    CreatedCalls(p, masters, c);
    EndKeeps(Created(p, call, call.pc.pot), masters, c, end);
    CreatedKeeps(p, c, step, end);
  }

  lemma CreatedTables(p: Part, masters: map<string, Master>, c: nat)
    requires Inv(p, masters) && c in p.calls && p.calls[c].pc.SlaveInserted?
    ensures SlavesOk(Created(p, p.calls[c], p.calls[c].pc.pot), masters)
    ensures NoOrphans(Created(p, p.calls[c], p.calls[c].pc.pot))
  {
    hide Exclusive;
    var call := p.calls[c];
    var q := Created(p, call, call.pc.pot);
    assert CallOk(p, masters, call);
    forall pot | pot in q.pots
      ensures Planted(q, pot)
    {
      if pot in p.pots {
        assert Planted(p, pot);
        var s :| s in p.slaves && p.slaves[s].pot == pot;
        assert s in q.slaves && q.slaves[s].pot == pot;
      } else {
        assert call.s in q.slaves && q.slaves[call.s].pot == pot;
      }
    }
  }

  /** The other calls are none the worse; this one has its rows in the tables now and only has to end. */
  lemma CreatedCalls(p: Part, masters: map<string, Master>, c: nat)
    requires Inv(p, masters) && c in p.calls && p.calls[c].pc.SlaveInserted?
    ensures var q := Created(p, p.calls[c], p.calls[c].pc.pot);
            q.calls == p.calls && Exclusive(q.calls)
            && forall d :: d in q.calls && d != c ==> CallOk(q, masters, q.calls[d])
  {
    hide SlavesOk, NoOrphans;
    var q := Created(p, p.calls[c], p.calls[c].pc.pot);
    forall d | d in q.calls && d != c
      ensures CallOk(q, masters, q.calls[d])
    {
      assert CallOk(p, masters, p.calls[d]) && CallOk(p, masters, p.calls[c]);
      assert Compatible(p.calls[c], p.calls[d]);
    }
  }

  /** A call ends: that frees what it held. */
  lemma EndKeeps(q: Part, masters: map<string, Master>, c: nat, end: Pc)
    requires SlavesOk(q, masters) && NoOrphans(q) && Exclusive(q.calls)
    requires c in q.calls && (end.Returned? || end.Stopped?)
    requires forall d :: d in q.calls && d != c ==> CallOk(q, masters, q.calls[d])
    ensures Inv(Goto(q, c, end), masters)
  {
    hide MasterEnrolled;
    var r := Goto(q, c, end);
    SamePotsArePlanted(q, r);
    forall d | d in r.calls
      ensures CallOk(r, masters, r.calls[d])
    {
      assert d != c ==> CallOk(q, masters, q.calls[d]);
    }
    forall d, e | d in r.calls && e in r.calls && d != e
      ensures Compatible(r.calls[d], r.calls[e])
    {
      assert Compatible(q.calls[d], q.calls[e]);
    }
  }

  lemma CreatedKeeps(p: Part, c: nat, step: Step, end: Pc)
    requires c in p.calls && p.calls[c].pc.SlaveInserted? && p.calls[c].s !in p.slaves
    ensures Keeps(p, Goto(Created(p, p.calls[c], p.calls[c].pc.pot), c, end), step)
  {
  }

  lemma TransferKeeps(p: Part, masters: map<string, Master>, step: Step)
    requires Inv(p, masters) && step.Move? && Next(p, masters, step).Some? && p.calls[step.c].pc.Moved?
    ensures Inv(Next(p, masters, step).value, masters) && Keeps(p, Next(p, masters, step).value, step)
  {
    hide Transferred, Goto, SlavesOk, NoOrphans, Exclusive, InFlight, RowLocked, PotPending, SlavePending, CheckMaster,
      Keeps;
    var c, call := step.c, p.calls[step.c];
    var end := if step.acknowledged then Returned else Stopped(Database);
    assert CallOk(p, masters, call);
    TransferredFits(p, masters, c);
    EndKeeps(Transferred(p, call), masters, c, end);
    TransferredKeeps(p, c, step, end);
  }

  lemma TransferredFits(p: Part, masters: map<string, Master>, c: nat)
    requires Inv(p, masters) && c in p.calls && p.calls[c].pc.Moved? && p.calls[c].s in p.slaves
    ensures var q := Transferred(p, p.calls[c]);
            && q.calls == p.calls && SlavesOk(q, masters) && NoOrphans(q) && Exclusive(q.calls)
            && forall d :: d in q.calls ==> CallOk(q, masters, q.calls[d])
  {
    hide Exclusive, MasterEnrolled, InFlight;
    var q := Transferred(p, p.calls[c]);
    MoverIsEnrolled(p, masters, c);
    SamePotsArePlanted(p, q);
    forall d | d in q.calls
      ensures CallOk(q, masters, q.calls[d])
    {
      assert CallOk(p, masters, p.calls[d]);
    }
  }

  lemma MoverIsEnrolled(p: Part, masters: map<string, Master>, c: nat)
    requires Inv(p, masters) && c in p.calls && p.calls[c].pc.Moved?
    ensures MasterEnrolled(masters, p.calls[c].m)
  {
    hide SlavesOk, NoOrphans, Exclusive;
    assert CallOk(p, masters, p.calls[c]);
  }

  lemma TransferredKeeps(p: Part, c: nat, step: Step, end: Pc)
    requires step.Move? && step.c == c && c in p.calls && p.calls[c].pc.Moved? && p.calls[c].s in p.slaves
    requires p.slaves[p.calls[c].s].transferHash == p.calls[c].transferHash
    ensures Keeps(p, Goto(Transferred(p, p.calls[c]), c, end), step)
  {
  }

  lemma SmallStepKeeps(p: Part, masters: map<string, Master>, step: Step)
    requires Inv(p, masters) && Next(p, masters, step).Some?
    requires step.Move? ==> !p.calls[step.c].pc.SlaveInserted? && !p.calls[step.c].pc.Moved?
    ensures Inv(Next(p, masters, step).value, masters) && Keeps(p, Next(p, masters, step).value, step)
  {
    hide CallOk, Compatible, RowLocked, PotPending, SlavePending, CheckMaster, SlavesOk, NoOrphans, Exclusive;
    if step.SetDisabled? {
      DisableKeeps(p, masters, step.s, step.disabled);
    } else {
      StepFits(p, masters, step);
      CallKeeps(p, masters, step, step.c, Next(p, masters, step).value.calls[step.c]);
    }
  }

  /** The step sets one call, to one that fits. */
  ghost predicate Fits(p: Part, masters: map<string, Master>, c: nat, call: Call) {
    CallOk(p, masters, call)
    && (c in p.calls ==> call.s == p.calls[c].s && call.m == p.calls[c].m)
    && forall d :: d in p.calls && d != c ==> Compatible(call, p.calls[d]) && Compatible(p.calls[d], call)
  }

  lemma StepFits(p: Part, masters: map<string, Master>, step: Step)
    requires Inv(p, masters) && !step.SetDisabled? && Next(p, masters, step).Some?
    requires step.Move? ==> !p.calls[step.c].pc.SlaveInserted? && !p.calls[step.c].pc.Moved?
    ensures var q := Next(p, masters, step).value;
            step.c in q.calls && q == p.(calls := p.calls[step.c := q.calls[step.c]])
            && Fits(p, masters, step.c, q.calls[step.c])
  {
    hide SlavesOk, NoOrphans;
    if step.Move? {
      MoveFits(p, masters, step);
    }
  }

  lemma MoveFits(p: Part, masters: map<string, Master>, step: Step)
    requires Inv(p, masters) && step.Move? && Next(p, masters, step).Some?
    requires !p.calls[step.c].pc.SlaveInserted? && !p.calls[step.c].pc.Moved?
    ensures Fits(p, masters, step.c, Next(p, masters, step).value.calls[step.c])
  {
    hide Inv, Fits, RowLocked, PotPending, SlavePending;
    var c := step.c;
    var call := p.calls[c];
    WasOk(p, masters, c);
    match call.pc
    case Start => ClaimsNoMore(p, masters, c, CheckMaster(masters, call.m));
    case Checked =>
      if call.s !in p.slaves {
        ClaimsNoMore(p, masters, c, Absent);
      } else if p.slaves[call.s].transferHash != call.transferHash {
        ClaimsNoMore(p, masters, c, Stopped(InvalidTransfer));
      } else {
        ClaimsTheRow(p, masters, c);
      }
    case Absent => ClaimsThePot(p, masters, c, step.pot);
    case PotInserted(own) =>
      if call.s in p.slaves {
        ClaimsNoMore(p, masters, c, Stopped(Database));
      } else {
        ClaimsTheSlave(p, masters, c);
      }
    case Locked => ClaimsNoMore(p, masters, c, Moved);
  }

  lemma WasOk(p: Part, masters: map<string, Master>, c: nat)
    requires Inv(p, masters) && c in p.calls
    ensures CallOk(p, masters, p.calls[c])
  {
    hide CallOk, Compatible;
  }

  /** The call holds nothing it did not hold before. */
  lemma ClaimsNoMore(p: Part, masters: map<string, Master>, c: nat, pc: Pc)
    requires Inv(p, masters) && c in p.calls && CallOk(p, masters, p.calls[c].(pc := pc))
    requires HoldsRow(p.calls[c].(pc := pc)) ==> HoldsRow(p.calls[c])
    requires HasPot(p.calls[c].(pc := pc)) ==> HasPot(p.calls[c]) && p.calls[c].pc.pot == pc.pot
    requires !pc.SlaveInserted?
    ensures Fits(p, masters, c, p.calls[c].(pc := pc))
  {
    hide CallOk;
    WasCompatible(p, masters, c);
  }

  lemma ClaimsTheRow(p: Part, masters: map<string, Master>, c: nat)
    requires Inv(p, masters) && c in p.calls && p.calls[c].pc.Checked? && !RowLocked(p, p.calls[c].s)
    requires CallOk(p, masters, p.calls[c].(pc := Locked))
    ensures Fits(p, masters, c, p.calls[c].(pc := Locked))
  {
    hide CallOk, SlavesOk, NoOrphans, Exclusive;
  }

  lemma ClaimsThePot(p: Part, masters: map<string, Master>, c: nat, pot: nat)
    requires Inv(p, masters) && c in p.calls && p.calls[c].pc.Absent? && !PotPending(p, pot)
    requires CallOk(p, masters, p.calls[c].(pc := PotInserted(pot)))
    ensures Fits(p, masters, c, p.calls[c].(pc := PotInserted(pot)))
  {
    hide CallOk, SlavesOk, NoOrphans, Exclusive;
  }

  lemma ClaimsTheSlave(p: Part, masters: map<string, Master>, c: nat)
    requires Inv(p, masters) && c in p.calls && p.calls[c].pc.PotInserted? && !SlavePending(p, p.calls[c].s)
    requires CallOk(p, masters, p.calls[c].(pc := SlaveInserted(p.calls[c].pc.pot)))
    ensures Fits(p, masters, c, p.calls[c].(pc := SlaveInserted(p.calls[c].pc.pot)))
  {
    hide CallOk, SlavesOk, NoOrphans;
    WasCompatible(p, masters, c);
  }

  lemma WasCompatible(p: Part, masters: map<string, Master>, c: nat)
    requires Inv(p, masters) && c in p.calls
    ensures forall d :: d in p.calls && d != c ==>
              Compatible(p.calls[c], p.calls[d]) && Compatible(p.calls[d], p.calls[c])
  {
    hide Compatible, CallOk;
  }

  /** A step that only sets one call. */
  lemma CallKeeps(p: Part, masters: map<string, Master>, step: Step, c: nat, call: Call)
    requires Inv(p, masters) && Fits(p, masters, c, call)
    ensures Inv(p.(calls := p.calls[c := call]), masters) && Keeps(p, p.(calls := p.calls[c := call]), step)
  {
    hide Compatible, MasterEnrolled, HoldsRow, HasPot, InFlight;
    var q := p.(calls := p.calls[c := call]);
    SamePotsArePlanted(p, q);
    forall d | d in q.calls
      ensures CallOk(q, masters, q.calls[d])
    {
      if d != c {
        assert CallOk(p, masters, p.calls[d]);
      }
    }
  }

  lemma DisableKeeps(p: Part, masters: map<string, Master>, s: string, disabled: bool)
    requires Inv(p, masters) && s in p.slaves
    ensures Inv(p.(slaves := p.slaves[s := p.slaves[s].(disabled := disabled)]), masters)
  {
    hide MasterEnrolled, Compatible, HoldsRow, HasPot, InFlight;
    var q := p.(slaves := p.slaves[s := p.slaves[s].(disabled := disabled)]);
    SamePotsArePlanted(p, q);
    forall d | d in q.calls
      ensures CallOk(q, masters, q.calls[d])
    {
      assert CallOk(p, masters, p.calls[d]);
    }
  }

  lemma SamePotsArePlanted(p: Part, q: Part)
    requires NoOrphans(p) && q.pots == p.pots
    requires forall s :: s in p.slaves ==> s in q.slaves && q.slaves[s].pot == p.slaves[s].pot
    ensures NoOrphans(q)
  {
  }

  /** The unlocked check is enough because enrollment is never undone. */
  lemma MastersMayGrow(p: Part, before: map<string, Master>, after: map<string, Master>)
    requires Inv(p, before)
    requires forall m :: m in before ==> m in after && (before[m].enrolled ==> after[m].enrolled)
    ensures Inv(p, after)
  {
  }

  /** A call that has ended does nothing more. */
  lemma EndedStays(p: Part, masters: map<string, Master>, step: Step, c: nat)
    requires Next(p, masters, step).Some? && c in p.calls && !InFlight(p.calls[c])
    ensures c in Next(p, masters, step).value.calls && Next(p, masters, step).value.calls[c] == p.calls[c]
    ensures !(step.Move? && step.c == c)
  {
    hide CheckMaster, RowLocked, PotPending, SlavePending;
  }

  /** The five steps of a transfer that nobody hinders. */
  lemma UnhinderedTransfer(p: Part, masters: map<string, Master>, d: nat, s: string, m: string, nodeLabel: string)
    returns (begun: Part, checked: Part, locked: Part, moved: Part, end: Part)
    requires s in p.slaves && d !in p.calls && !RowLocked(p, s)
    requires m in masters && masters[m].enrolled && !masters[m].disabled
    ensures Next(p, masters, Begin(d, s, m, nodeLabel, p.slaves[s].transferHash)) == Some(begun)
    ensures Next(begun, masters, Move(d, 0, true)) == Some(checked)
    ensures Next(checked, masters, Move(d, 0, true)) == Some(locked)
    ensures Next(locked, masters, Move(d, 0, true)) == Some(moved)
    ensures Next(moved, masters, Move(d, 0, true)) == Some(end)
    ensures end.slaves == p.slaves[s := p.slaves[s].(master := m, nodeLabel := nodeLabel)] && end.pots == p.pots
    ensures end.calls == p.calls[d := Call(s, m, nodeLabel, p.slaves[s].transferHash, Returned)]
  {
    hide PotPending, SlavePending;
    begun := p.(calls := p.calls[d := Call(s, m, nodeLabel, p.slaves[s].transferHash, Start)]);
    checked := Goto(begun, d, Checked);
    assert !RowLocked(checked, s);
    locked := Goto(checked, d, Locked);
    moved := Goto(locked, d, Moved);
    var row := p.slaves[s].(master := m, nodeLabel := nodeLabel);
    end := Goto(moved.(slaves := p.slaves[s := row]), d, Returned);
    assert end.calls == p.calls[d := Call(s, m, nodeLabel, p.slaves[s].transferHash, Returned)];
  }
}
