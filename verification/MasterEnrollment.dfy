/** Concurrent calls of EnrollMaster: vps/internal/store/store.go:78-117 under
    vps/internal/enrollment/enrollment.go:84-105, one statement or broker command at a time. A row lock taken by SELECT
    .. FOR UPDATE is held until the call ends. */
module MasterEnrollment {
  import opened Bytes
  import opened HostTables
  import opened Dynsec

  datatype Error = NotFound | Disabled | Used | Invalid | Provisioning | Database

  /** Where a call stands: before the locking SELECT, about to send the k-th command, provisioned, row updated but not
      committed, returned with credentials, returned with an error. */
  datatype Pc = Start | Sending(k: nat) | Ready | Updated | Returned | Stopped(error: Error)

  datatype Call = Call(m: string, tokenHash: string, password: string, pc: Pc)

  datatype Part = Part(masters: map<string, Master>, broker: Broker, calls: map<nat, Call>)

  predicate Holds(call: Call) {
    call.pc.Sending? || call.pc.Ready? || call.pc.Updated?
  }

  predicate Owns(call: Call) {
    Holds(call) || call.pc.Returned?
  }

  predicate InFlight(call: Call) {
    !call.pc.Returned? && !call.pc.Stopped?
  }

  predicate Locked(p: Part, m: string) {
    exists c :: c in p.calls && Holds(p.calls[c]) && p.calls[c].m == m
  }

  function Goto(p: Part, c: nat, pc: Pc): Part
    requires c in p.calls
  {
    p.(calls := p.calls[c := p.calls[c].(pc := pc)])
  }

  /** The checks on the locked row. */
  function Checked(masters: map<string, Master>, call: Call): Pc {
    if call.m !in masters then Stopped(NotFound)
    else
      var row := masters[call.m];
      if row.disabled then Stopped(Disabled)
      else if row.enrolled || row.tokenHash.None? || row.tokenHash.value == "" then Stopped(Used)
      else if row.tokenHash.value != call.tokenHash then Stopped(Invalid)
      else Sending(0)
  }

  /** Which row refuses a call, and why. */
  lemma WhyRefused(masters: map<string, Master>, call: Call)
    ensures var pc := Checked(masters, call);
            && (pc == Stopped(NotFound) <==> call.m !in masters)
            && (pc == Stopped(Disabled) <==> call.m in masters && masters[call.m].disabled)
            && (pc == Stopped(Used) <==>
                  call.m in masters && !masters[call.m].disabled
                  && (masters[call.m].enrolled || masters[call.m].tokenHash == None
                      || masters[call.m].tokenHash == Some("")))
            && (pc == Stopped(Invalid) <==>
                  call.m in masters && !masters[call.m].disabled && !masters[call.m].enrolled
                  && masters[call.m].tokenHash != None && masters[call.m].tokenHash != Some("")
                  && masters[call.m].tokenHash != Some(call.tokenHash))
            && (pc == Sending(0) <==>
                  call.m in masters && !masters[call.m].disabled && !masters[call.m].enrolled && call.tokenHash != ""
                  && masters[call.m].tokenHash == Some(call.tokenHash))
  {
  }

  function AfterReply(k: nat, reply: Reply): Pc {
    if k < 2 then (if reply.Refused? then Stopped(Provisioning) else Sending(k + 1))
    else if reply.Done? then Ready
    else if k == 2 && reply.AlreadyExists? then Sending(3)
    else Stopped(Provisioning)
  }

  /** The UPDATE, as it becomes visible at commit. */
  function Enrolled(row: Master, m: string): Master {
    row.(username := Some(m), enrolled := true, tokenHash := None)
  }

  /** What can happen. `acknowledged` says whether the client learns that its commit succeeded. */
  datatype Step =
    | Create(m: string, tokenHash: string)
    | SetDisabled(m: string, disabled: bool)
    | Begin(c: nat, m: string, tokenHash: string, password: string)
    | Move(c: nat, fate: Fate, acknowledged: bool)
    | Abort(c: nat)                       // a statement, the connection or the commit fails; everything is rolled back

  /** The state after a step, or None when the step is not possible or has to wait. */
  function Next(p: Part, s: Step): Option<Part> {
    match s
    case Create(m, tokenHash) =>
      if m in p.masters then None
      else Some(p.(masters := p.masters[m := Master(Some(tokenHash), false, false, None)]))
    case SetDisabled(m, disabled) =>
      if m !in p.masters || Locked(p, m) then None
      else Some(p.(masters := p.masters[m := p.masters[m].(disabled := disabled)]))
    case Begin(c, m, tokenHash, password) =>
      if c in p.calls then None else Some(p.(calls := p.calls[c := Call(m, tokenHash, password, Start)]))
    case Abort(c) =>
      if c !in p.calls || !InFlight(p.calls[c]) then None else Some(Goto(p, c, Stopped(Database)))
    case Move(c, fate, acknowledged) =>
      if c !in p.calls then None
      else
        var call := p.calls[c];
        match call.pc
        case Start => if Locked(p, call.m) then None else Some(Goto(p, c, Checked(p.masters, call)))
        case Sending(k) =>
          if k >= 4 then None
          else
            var (after, reply) := Execute(p.broker, Script(call.m, call.password)[k]);
            var q := p.(broker := if fate.LostBefore? then p.broker else after);
            Some(Goto(q, c, if fate.Answered? then AfterReply(k, reply) else Stopped(Provisioning)))
        case Ready => Some(Goto(p, c, Updated))
        case Updated =>
          if call.m !in p.masters then None
          else
            var q := p.(masters := p.masters[call.m := Enrolled(p.masters[call.m], call.m)]);
            Some(Goto(q, c, if acknowledged then Returned else Stopped(Database)))
        case Returned => None
        case Stopped(_) => None
  }

  // ---------------------------------------------------------------------------
  // The invariant
  // ---------------------------------------------------------------------------

  /** What the broker owes to a call at its place in the script. */
  ghost predicate Progress(b: Broker, call: Call) {
    match call.pc
    case Sending(k) =>
      k < 4
      && (k == 1 ==> RoleName(call.m) in b.roles)
      && (k >= 2 ==> RoleName(call.m) in b.roles && b.roles[RoleName(call.m)] == map[OwnKey(call.m) := OWN_ACL])
      && (k == 3 ==> call.m in b.clients)
    case Ready => Provisioned(b, call.m, call.password)
    case Updated => Provisioned(b, call.m, call.password)
    case Returned => Provisioned(b, call.m, call.password)
    case _ => true
  }

  /** What the committed row looks like for a call. */
  ghost predicate RowFits(masters: map<string, Master>, call: Call) {
    (Holds(call) ==>
       call.m in masters && !masters[call.m].enrolled && !masters[call.m].disabled
       && masters[call.m].tokenHash == Some(call.tokenHash) && call.tokenHash != "")
    && (call.pc.Returned? ==> call.m in masters && masters[call.m].enrolled)
  }

  /** At most one call per master holds the row or has returned credentials. */
  ghost predicate Exclusive(calls: map<nat, Call>) {
    forall c, d :: c in calls && d in calls && calls[c].m == calls[d].m && Owns(calls[c]) && Owns(calls[d]) ==> c == d
  }

  /** Usernames equal ids, so their UNIQUE constraint never fires, and a used token is gone. */
  ghost predicate RowsOk(masters: map<string, Master>) {
    forall m :: m in masters ==>
      (masters[m].username.Some? ==> masters[m].username == Some(m))
      && (masters[m].enrolled ==> masters[m].tokenHash.None? && masters[m].username == Some(m))
  }

  ghost predicate Inv(p: Part) {
    Clean(p.broker) && RowsOk(p.masters) && Exclusive(p.calls)
    && (forall c :: c in p.calls ==> Progress(p.broker, p.calls[c]) && RowFits(p.masters, p.calls[c]))
  }

  /** What no step undoes: ids stay registered, an enrolled master stays enrolled, a call that returned stays so. */
  ghost predicate Grows(p: Part, q: Part) {
    MastersGrow(p.masters, q.masters)
    && (forall c :: c in p.calls && p.calls[c].pc.Returned? ==> c in q.calls && q.calls[c] == p.calls[c])
  }

  ghost predicate MastersGrow(before: map<string, Master>, after: map<string, Master>) {
    forall m :: m in before ==> m in after && (before[m].enrolled ==> after[m].enrolled)
  }

  // ---------------------------------------------------------------------------
  // Every step keeps it
  // ---------------------------------------------------------------------------

  /** Moving one call and changing the broker by its command. */
  lemma SendingKeeps(p: Part, c: nat, fate: Fate)
    requires Inv(p) && c in p.calls && p.calls[c].pc.Sending?
    ensures Next(p, Move(c, fate, false)).Some? && Inv(Next(p, Move(c, fate, false)).value)
  {
    var call := p.calls[c];
    var k := call.pc.k;
    assert Progress(p.broker, call) && RowFits(p.masters, call);
    var q := Next(p, Move(c, fate, false)).value;
    CommandKeeps(p.broker, call.m, call.password, k);
    CommandAdvances(p.broker, call, k);
    forall d | d in q.calls
      ensures Progress(q.broker, q.calls[d]) && RowFits(q.masters, q.calls[d])
    {
      if d != c {
        assert q.calls[d] == p.calls[d];
        assert Progress(p.broker, p.calls[d]) && RowFits(p.masters, p.calls[d]);
        if p.calls[d].m != call.m {
          OthersKeepProgress(p.broker, q.broker, call.m, p.calls[d]);
        }
      }
    }
  }

  lemma CommandAdvances(b: Broker, call: Call, k: nat)
    requires Clean(b) && call.pc == Sending(k) && Progress(b, call)
    ensures var (after, reply) := Execute(b, Script(call.m, call.password)[k]);
            Progress(after, call.(pc := AfterReply(k, reply)))
  {
  }

  lemma OthersKeepProgress(b: Broker, after: Broker, m: string, other: Call)
    requires OthersUntouched(b, after, m) && other.m != m && Progress(b, other)
    ensures Progress(after, other)
  {
    if RoleName(m) == RoleName(other.m) {
      RoleNamesDiffer(m, other.m);
    }
  }

  lemma StepKeeps(p: Part, s: Step)
    requires Inv(p) && Next(p, s).Some?
    ensures Inv(Next(p, s).value) && Grows(p, Next(p, s).value)
  {
    StepGrows(p, s);
    hide Inv, Next, Grows;
    if s.Move? || s.Abort? {
      if s.Move? && p.calls[s.c].pc.Sending? {
        SendingKeeps(p, s.c, s.fate);
        SendingIgnoresTheRest(p, s);
      } else {
        LocalMoveKeeps(p, s);
      }
    } else {
      TableStepKeeps(p, s);
    }
  }

  lemma SendingIgnoresTheRest(p: Part, s: Step)
    requires s.Move? && s.c in p.calls && p.calls[s.c].pc.Sending?
    ensures Next(p, s) == Next(p, Move(s.c, s.fate, false))
  {
  }

  lemma StepGrows(p: Part, s: Step)
    requires Next(p, s).Some?
    ensures Grows(p, Next(p, s).value)
    ensures s.Move? || s.Abort? ==> s.c in p.calls
  {
    hide Execute, Script, Checked, AfterReply, Locked;
  }

  lemma TableStepKeeps(p: Part, s: Step)
    requires Inv(p) && Next(p, s).Some? && !s.Move? && !s.Abort?
    ensures Inv(Next(p, s).value)
  {
    hide Progress, Execute;
    var q := Next(p, s).value;
    forall d | d in q.calls
      ensures Progress(q.broker, q.calls[d]) && RowFits(q.masters, q.calls[d])
    {
      if d in p.calls {
        assert Progress(p.broker, p.calls[d]) && RowFits(p.masters, p.calls[d]);
      } else {
        FreshCall(q.broker, q.calls[d]);
      }
    }
  }

  lemma FreshCall(b: Broker, call: Call)
    requires call.pc.Start?
    ensures Progress(b, call)
  {
  }

  lemma LocalMoveKeeps(p: Part, s: Step)
    requires Inv(p) && Next(p, s).Some? && (s.Abort? || (s.Move? && !p.calls[s.c].pc.Sending?))
    ensures Inv(Next(p, s).value)
  {
    hide Inv, Execute, Goto, Locked, InFlight, Checked;
    var c := s.c;
    var call := p.calls[c];
    CallIsOk(p, c);
    if s.Abort? {
      GotoKeeps(p, c, Stopped(Database));
    } else if call.pc.Start? {
      CheckedKeeps(p, c);
    } else if call.pc.Ready? {
      GotoKeeps(p, c, Updated);
    } else {
      CommitKeeps(p, c, if s.acknowledged then Returned else Stopped(Database));
    }
  }

  lemma CallIsOk(p: Part, c: nat)
    requires Inv(p) && c in p.calls
    ensures Progress(p.broker, p.calls[c]) && RowFits(p.masters, p.calls[c])
  {
    hide Progress, RowFits, Clean, RowsOk, Exclusive;
  }

  /** A call that claims no more than before. */
  lemma GotoKeeps(p: Part, c: nat, pc: Pc)
    requires Inv(p) && c in p.calls && !pc.Returned?
    requires Progress(p.broker, p.calls[c].(pc := pc)) && RowFits(p.masters, p.calls[c].(pc := pc))
    requires Holds(p.calls[c].(pc := pc)) ==> Holds(p.calls[c])
    ensures Inv(Goto(p, c, pc))
  {
    hide Progress, RowFits, Clean, RowsOk;
  }

  /** The locking SELECT: nobody else has the row. */
  lemma CheckedKeeps(p: Part, c: nat)
    requires Inv(p) && c in p.calls && p.calls[c].pc.Start? && !Locked(p, p.calls[c].m)
    ensures Inv(Goto(p, c, Checked(p.masters, p.calls[c])))
  {
    hide Clean, RowsOk, Provisioned;
    var q := Goto(p, c, Checked(p.masters, p.calls[c]));
    forall d | d in q.calls
      ensures Progress(q.broker, q.calls[d]) && RowFits(q.masters, q.calls[d])
    {
      assert d != c ==> Progress(p.broker, p.calls[d]) && RowFits(p.masters, p.calls[d]);
    }
    forall d | d in p.calls && Owns(p.calls[d]) && p.calls[d].m == p.calls[c].m
      ensures !Holds(q.calls[c])
    {
      assert RowFits(p.masters, p.calls[d]);
    }
  }

  /** The commit; `pc` is Returned when the client learns of it. */
  lemma CommitKeeps(p: Part, c: nat, pc: Pc)
    requires Inv(p) && c in p.calls && p.calls[c].pc.Updated? && p.calls[c].m in p.masters
    requires pc == Returned || pc == Stopped(Database)
    ensures var m := p.calls[c].m;
            Inv(Goto(p.(masters := p.masters[m := Enrolled(p.masters[m], m)]), c, pc))
  {
    hide Clean, Provisioned;
    var m := p.calls[c].m;
    var q := Goto(p.(masters := p.masters[m := Enrolled(p.masters[m], m)]), c, pc);
    CallIsOk(p, c);
    forall d | d in q.calls
      ensures Progress(q.broker, q.calls[d]) && RowFits(q.masters, q.calls[d])
    {
      if d != c {
        CallIsOk(p, d);
        assert Holds(p.calls[d]) ==> p.calls[d].m != m;
      }
    }
  }

  /** What a step does to a row: only an administrator disables or enables it, and only the commit of an enrollment for
      it records the user name and uses up the token. */
  lemma RowsChangeOnlySo(p: Part, s: Step, m: string)
    requires Next(p, s).Some? && m in p.masters
    ensures var row := p.masters[m];
            var commits := s.Move? && p.calls[s.c].pc.Updated? && p.calls[s.c].m == m;
            m in Next(p, s).value.masters
            && var after := Next(p, s).value.masters[m];
               && after.disabled == (if s.SetDisabled? && s.m == m then s.disabled else row.disabled)
               && after.enrolled == (commits || row.enrolled)
               && after.tokenHash == (if commits then None else row.tokenHash)
               && after.username == (if commits then Some(m) else row.username)
  {
    hide Execute, Script, Checked, AfterReply, Locked;
  }

  /** New rows are those of a new master: a token, and nothing used or disabled. */
  lemma NewRowsAreFresh(p: Part, s: Step, m: string)
    requires Next(p, s).Some? && m !in p.masters
    ensures m in Next(p, s).value.masters <==> s.Create? && s.m == m
    ensures s.Create? && s.m == m ==>
              var row := Next(p, s).value.masters[m];
              row.tokenHash == Some(s.tokenHash) && !row.enrolled && !row.disabled && row.username == None
  {
    hide Execute, Script, Checked, AfterReply, Locked;
  }

  /** In every interleaving: at most one call per master has returned credentials, and the password it returned is the
      one the broker holds, with exactly the client id, role and topic of that master. */
  lemma CredentialsAreUnique(p: Part, c: nat, d: nat)
    requires Inv(p) && c in p.calls && p.calls[c].pc.Returned?
    ensures Provisioned(p.broker, p.calls[c].m, p.calls[c].password)
    ensures InForce(p.broker, p.calls[c].m, p.calls[c].password)
    ensures d in p.calls && p.calls[d].pc.Returned? && p.calls[d].m == p.calls[c].m ==> d == c
  {
    hide InForce;
    CallIsOk(p, c);
    ProvisionedIsInForce(p.broker, p.calls[c].m, p.calls[c].password);
  }
}
