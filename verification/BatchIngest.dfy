/** Concurrent calls of StoreBatch: vps/internal/store/store.go:38-64, one statement at a time. Each reading is
    inserted against the slaves committed at that moment; a key that another open transaction has inserted makes
    the statement wait. `log` and `origin` record, for the proof only, what each committed batch contained and which
    batch each measurement came with.
  */
module BatchIngest {
  import opened Bytes
  import opened HostTables

  datatype Pc =
    | Start
    | Inserting(k: nat)       // the batch row and the first k readings are inserted
    | Returned(added: bool)   // no error: the batch was added, or was already there
    | Stopped

  datatype Call = Call(m: string, b: Batch, pc: Pc)

  datatype Part = Part(
    batches: map<BatchKey, BatchRow>,
    measurements: map<MeasureKey, Reading>,
    calls: map<nat, Call>,
    log: map<BatchKey, Batch>,
    origin: map<MeasureKey, BatchKey>)

  function KeyOf(call: Call): BatchKey {
    BatchKey(call.m, call.b.messageId)
  }

  predicate InFlight(call: Call) {
    call.pc.Start? || call.pc.Inserting?
  }

  /** One of the first `n` readings of the batch has this key. */
  predicate Lists(b: Batch, n: nat, key: MeasureKey)
    requires n <= |b.readings|
  {
    exists i :: 0 <= i < n && Key(b, i) == key
  }

  /** The call has inserted this measurement without having committed it. */
  predicate HasInserted(call: Call, key: MeasureKey) {
    call.pc.Inserting? && call.pc.k <= |call.b.readings| && Lists(call.b, call.pc.k, key)
  }

  predicate BatchPending(p: Part, key: BatchKey) {
    exists c :: c in p.calls && p.calls[c].pc.Inserting? && KeyOf(p.calls[c]) == key
  }

  predicate MeasurePending(p: Part, c: nat, key: MeasureKey) {
    exists d :: d in p.calls && d != c && HasInserted(p.calls[d], key)
  }

  function Goto(p: Part, c: nat, pc: Pc): Part
    requires c in p.calls
  {
    p.(calls := p.calls[c := p.calls[c].(pc := pc)])
  }

  /** The first `n` readings of a batch added as rows. */
  function WithRows(t: map<MeasureKey, Reading>, b: Batch, n: nat): map<MeasureKey, Reading>
    requires n <= |b.readings|
  {
    if n == 0 then t else WithRows(t, b, n - 1)[Key(b, n - 1) := b.readings[n - 1]]
  }

  function WithOrigin(t: map<MeasureKey, BatchKey>, b: Batch, n: nat, source: BatchKey): map<MeasureKey, BatchKey>
    requires n <= |b.readings|
  {
    if n == 0 then t else WithOrigin(t, b, n - 1, source)[Key(b, n - 1) := source]
  }

  datatype Step =
    | Begin(c: nat, m: string, b: Batch)
    | Move(c: nat, acknowledged: bool)
    | Abort(c: nat)

  function Next(p: Part, masters: map<string, Master>, slaves: map<string, Slave>, step: Step): Option<Part> {
    match step
    case Begin(c, m, b) =>
      if c in p.calls then None else Some(p.(calls := p.calls[c := Call(m, b, Start)]))
    case Abort(c) =>
      if c !in p.calls || !InFlight(p.calls[c]) then None else Some(Goto(p, c, Stopped))
    case Move(c, acknowledged) =>
      if c !in p.calls then None
      else
        var call := p.calls[c];
        match call.pc
        case Start =>
          if call.m !in masters then Some(Goto(p, c, Stopped))
          else if BatchPending(p, KeyOf(call)) then None
          else Some(Goto(p, c, if KeyOf(call) in p.batches then Returned(false) else Inserting(0)))
        case Inserting(k) =>
          if k < |call.b.readings| then InsertReading(p, slaves, c, k)
          else if k > |call.b.readings| then None
          else Some(Goto(Committed(p, call), c, if acknowledged then Returned(true) else Stopped))
        case Returned(_) => None
        case Stopped => None
  }

  function InsertReading(p: Part, slaves: map<string, Slave>, c: nat, k: nat): Option<Part>
    requires c in p.calls && k < |p.calls[c].b.readings|
  {
    var call := p.calls[c];
    var r := call.b.readings[k];
    if !Bound(slaves, call.m, r.slave) || !InRange(r) then Some(Goto(p, c, Stopped))
    else if HasInserted(call, Key(call.b, k)) || Key(call.b, k) in p.measurements then Some(Goto(p, c, Stopped))
    else if MeasurePending(p, c, Key(call.b, k)) then None
    else Some(Goto(p, c, Inserting(k + 1)))
  }

  function Committed(p: Part, call: Call): Part {
    var n := |call.b.readings|;
    p.(batches := p.batches[KeyOf(call) := BatchRow(call.b.measuredAt, call.b.firmware)],
       measurements := WithRows(p.measurements, call.b, n),
       log := p.log[KeyOf(call) := call.b],
       origin := WithOrigin(p.origin, call.b, n, KeyOf(call)))
  }

  // ---------------------------------------------------------------------------
  // The invariant
  // ---------------------------------------------------------------------------

  ghost predicate Distinct(b: Batch, n: nat)
    requires n <= |b.readings|
  {
    forall i, j :: 0 <= i < j < n ==> b.readings[i].slave != b.readings[j].slave
  }

  /** A committed batch is there with all its readings, each a row of its own that came with it. */
  ghost predicate Complete(p: Part, key: BatchKey, b: Batch) {
    key.messageId == b.messageId && key in p.batches && p.batches[key] == BatchRow(b.measuredAt, b.firmware)
    && Distinct(b, |b.readings|)
    && forall i :: 0 <= i < |b.readings| ==>
         Key(b, i) in p.measurements && p.measurements[Key(b, i)] == b.readings[i]
         && Key(b, i) in p.origin && p.origin[Key(b, i)] == key
  }

  /** A committed measurement came with a committed batch that lists it, for a registered slave and in range. */
  ghost predicate Accounted(p: Part, slaves: map<string, Slave>, key: MeasureKey) {
    key in p.origin && p.origin[key] in p.log && Lists(p.log[p.origin[key]], |p.log[p.origin[key]].readings|, key)
    && key.slave in slaves && key in p.measurements && InRange(p.measurements[key])
  }

  ghost predicate CallOk(p: Part, slaves: map<string, Slave>, call: Call) {
    match call.pc
    case Inserting(k) =>
      k <= |call.b.readings| && KeyOf(call) !in p.batches && Distinct(call.b, k)
      && forall i :: 0 <= i < k ==>
           Key(call.b, i) !in p.measurements && call.b.readings[i].slave in slaves && InRange(call.b.readings[i])
    case Returned(_) => KeyOf(call) in p.batches
    case _ => true
  }

  ghost predicate Apart(c: Call, d: Call) {
    c.pc.Inserting? && d.pc.Inserting? ==>
      KeyOf(c) != KeyOf(d) && forall key :: !(HasInserted(c, key) && HasInserted(d, key))
  }

  /** All or nothing: batches and measurements account for each other exactly. */
  ghost predicate Inv(p: Part, slaves: map<string, Slave>) {
    p.batches.Keys == p.log.Keys
    && (forall key :: key in p.log ==> Complete(p, key, p.log[key]))
    && (forall key :: key in p.measurements ==> Accounted(p, slaves, key))
    && (forall c :: c in p.calls ==> CallOk(p, slaves, p.calls[c]))
    && (forall c, d :: c in p.calls && d in p.calls && c != d ==> Apart(p.calls[c], p.calls[d]))
  }

  // ---------------------------------------------------------------------------
  // Every step keeps it
  // ---------------------------------------------------------------------------

  lemma StepKeeps(p: Part, masters: map<string, Master>, slaves: map<string, Slave>, step: Step)
    requires Inv(p, slaves) && Next(p, masters, slaves, step).Some?
    ensures Inv(Next(p, masters, slaves, step).value, slaves)
    ensures p.log.Keys <= Next(p, masters, slaves, step).value.log.Keys
  {
    var q := Next(p, masters, slaves, step).value;
    if step.Move? && p.calls[step.c].pc.Inserting? && p.calls[step.c].pc.k == |p.calls[step.c].b.readings| {
      CommitKeeps(p, slaves, step.c, if step.acknowledged then Returned(true) else Stopped);
    } else {
      SmallStepKeeps(p, masters, slaves, step);
    }
  }

  lemma SmallStepKeeps(p: Part, masters: map<string, Master>, slaves: map<string, Slave>, step: Step)
    requires Inv(p, slaves) && Next(p, masters, slaves, step).Some?
    requires step.Move? && p.calls[step.c].pc.Inserting? ==> p.calls[step.c].pc.k != |p.calls[step.c].b.readings|
    ensures var q := Next(p, masters, slaves, step).value;
            Inv(q, slaves) && q.log == p.log
  {
    hide CallOk, Apart, Complete, Accounted, BatchPending, InsertReading;
    if step.Move? && p.calls[step.c].pc.Inserting? {
      InsertKeeps(p, slaves, step.c);
      CallKeeps(p, slaves, step.c, InsertReading(p, slaves, step.c, p.calls[step.c].pc.k).value.calls[step.c]);
    } else {
      StepFits(p, masters, slaves, step);
      CallKeeps(p, slaves, step.c, Next(p, masters, slaves, step).value.calls[step.c]);
    }
  }

  lemma StepFits(p: Part, masters: map<string, Master>, slaves: map<string, Slave>, step: Step)
    requires Inv(p, slaves) && Next(p, masters, slaves, step).Some?
    requires !(step.Move? && p.calls[step.c].pc.Inserting?)
    ensures var q := Next(p, masters, slaves, step).value;
            step.c in q.calls && q == p.(calls := p.calls[step.c := q.calls[step.c]])
            && CallOk(p, slaves, q.calls[step.c])
            && forall d :: d in p.calls && d != step.c ==>
                Apart(q.calls[step.c], p.calls[d]) && Apart(p.calls[d], q.calls[step.c])
  {
    hide Complete, Accounted, InsertReading;
    if step.Move? {
      assert forall d :: d in p.calls && p.calls[d].pc.Inserting? && KeyOf(p.calls[d]) == KeyOf(p.calls[step.c])
               ==> BatchPending(p, KeyOf(p.calls[step.c]));
    }
  }

  /** A step that only sets one call. */
  lemma CallKeeps(p: Part, slaves: map<string, Slave>, c: nat, call: Call)
    requires Inv(p, slaves) && CallOk(p, slaves, call)
    requires forall d :: d in p.calls && d != c ==> Apart(call, p.calls[d]) && Apart(p.calls[d], call)
    ensures Inv(p.(calls := p.calls[c := call]), slaves)
  {
    hide Apart, Complete, Accounted, CallOk;
    var q := p.(calls := p.calls[c := call]);
    SameTables(p, q, slaves);
    SameCallOk(p, q, slaves, call);
    forall d | d in p.calls
      ensures CallOk(q, slaves, p.calls[d])
    {
      SameCallOk(p, q, slaves, p.calls[d]);
    }
  }

  /** One more reading inserted by an open transaction. */
  lemma InsertKeeps(p: Part, slaves: map<string, Slave>, c: nat)
    requires Inv(p, slaves) && c in p.calls && p.calls[c].pc.Inserting? && p.calls[c].pc.k < |p.calls[c].b.readings|
    requires InsertReading(p, slaves, c, p.calls[c].pc.k).Some?
    ensures var after := InsertReading(p, slaves, c, p.calls[c].pc.k).value.calls[c];
            InsertReading(p, slaves, c, p.calls[c].pc.k).value == p.(calls := p.calls[c := after])
            && CallOk(p, slaves, after)
            && forall d :: d in p.calls && d != c ==> Apart(after, p.calls[d]) && Apart(p.calls[d], after)
  {
    hide CallOk, Apart, Bound, InRange, HasInserted, Complete, Accounted;
    var call := p.calls[c];
    var k := call.pc.k;
    assert CallOk(p, slaves, call);
    assert forall d :: d in p.calls && d != c ==> Apart(call, p.calls[d]) && Apart(p.calls[d], call);
    if InsertReading(p, slaves, c, k).value.calls[c].pc.Inserting? {
      InsertedOk(p, slaves, call);
      forall d | d in p.calls && d != c
        ensures Apart(call.(pc := Inserting(k + 1)), p.calls[d]) && Apart(p.calls[d], call.(pc := Inserting(k + 1)))
      {
        InsertedApart(call, p.calls[d]);
      }
    } else {
      StoppedFits(p, slaves, call);
    }
  }

  lemma StoppedFits(p: Part, slaves: map<string, Slave>, call: Call)
    ensures CallOk(p, slaves, call.(pc := Stopped))
    ensures forall d :: Apart(call.(pc := Stopped), d) && Apart(d, call.(pc := Stopped))
  {
  }

  lemma InsertedOk(p: Part, slaves: map<string, Slave>, call: Call)
    requires CallOk(p, slaves, call) && call.pc.Inserting? && call.pc.k < |call.b.readings|
    requires var k := call.pc.k;
             Bound(slaves, call.m, call.b.readings[k].slave) && InRange(call.b.readings[k])
             && !HasInserted(call, Key(call.b, k)) && Key(call.b, k) !in p.measurements
    ensures CallOk(p, slaves, call.(pc := Inserting(call.pc.k + 1)))
  {
    hide InRange;
    var k := call.pc.k;
    forall i | 0 <= i < k
      ensures call.b.readings[i].slave != call.b.readings[k].slave
    {
      assert Lists(call.b, k, Key(call.b, i));
    }
  }

  lemma InsertedApart(call: Call, other: Call)
    requires Apart(call, other) && Apart(other, call) && call.pc.Inserting? && call.pc.k < |call.b.readings|
    requires !HasInserted(other, Key(call.b, call.pc.k))
    ensures var after := call.(pc := Inserting(call.pc.k + 1)); Apart(after, other) && Apart(other, after)
  {
    hide Lists;
    var after := call.(pc := Inserting(call.pc.k + 1));
    forall key | HasInserted(after, key)
      ensures !(other.pc.Inserting? && HasInserted(other, key))
    {
      ListsStep(call.b, call.pc.k + 1, key);
    }
  }

  lemma ListsStep(b: Batch, n: nat, key: MeasureKey)
    requires 0 < n <= |b.readings|
    ensures Lists(b, n, key) <==> Lists(b, n - 1, key) || Key(b, n - 1) == key
  {
  }

  lemma {:induction false} RowsAt(t: map<MeasureKey, Reading>, b: Batch, n: nat, key: MeasureKey)
    requires n <= |b.readings|
    ensures key in WithRows(t, b, n) <==> key in t || Lists(b, n, key)
    ensures key in t && !Lists(b, n, key) ==> WithRows(t, b, n)[key] == t[key]
  {
    if n > 0 {
      RowsAt(t, b, n - 1, key);
      ListsStep(b, n, key);
    }
  }

  lemma {:induction false} OriginAt(t: map<MeasureKey, BatchKey>, b: Batch, n: nat, source: BatchKey, key: MeasureKey)
    requires n <= |b.readings|
    ensures key in WithOrigin(t, b, n, source) <==> key in t || Lists(b, n, key)
    ensures key in WithOrigin(t, b, n, source) ==>
              WithOrigin(t, b, n, source)[key] == if Lists(b, n, key) then source else t[key]
  {
    if n > 0 {
      OriginAt(t, b, n - 1, source, key);
      ListsStep(b, n, key);
    }
  }

  lemma {:induction false} WithRowsAt(t: map<MeasureKey, Reading>, b: Batch, n: nat, i: nat)
    requires i < n <= |b.readings| && Distinct(b, n)
    ensures Lists(b, n, Key(b, i))
    ensures Key(b, i) in WithRows(t, b, n) && WithRows(t, b, n)[Key(b, i)] == b.readings[i]
  {
    if i < n - 1 {
      WithRowsAt(t, b, n - 1, i);
      assert b.readings[i].slave != b.readings[n - 1].slave;
    }
  }

  /** The commit adds exactly what was missing. */
  lemma CommitKeeps(p: Part, slaves: map<string, Slave>, c: nat, pc: Pc)
    requires Inv(p, slaves) && c in p.calls && p.calls[c].pc == Inserting(|p.calls[c].b.readings|)
    requires pc == Returned(true) || pc == Stopped
    ensures Inv(Goto(Committed(p, p.calls[c]), c, pc), slaves)
  {
    hide Committed, Complete, Accounted, CallOk, Apart;
    CommitCompletes(p, slaves, c);
    CommitAccounts(p, slaves, c);
    CommittedCalls(p, p.calls[c]);
    forall d | d in p.calls && d != c
      ensures CallOk(Committed(p, p.calls[c]), slaves, p.calls[d])
    {
      CommitSpares(p, slaves, c, d);
    }
    CommittedHasItsKey(p, p.calls[c]);
    EndKeeps(Committed(p, p.calls[c]), slaves, c, pc);
  }

  lemma CommittedHasItsKey(p: Part, call: Call)
    ensures KeyOf(call) in Committed(p, call).batches
  {
  }

  /** The committed call ends. */
  lemma EndKeeps(q: Part, slaves: map<string, Slave>, c: nat, pc: Pc)
    requires q.batches.Keys == q.log.Keys && c in q.calls && KeyOf(q.calls[c]) in q.batches
    requires pc == Returned(true) || pc == Stopped
    requires forall key :: key in q.log ==> Complete(q, key, q.log[key])
    requires forall key :: key in q.measurements ==> Accounted(q, slaves, key)
    requires forall d :: d in q.calls && d != c ==> CallOk(q, slaves, q.calls[d])
    requires forall d, e :: d in q.calls && e in q.calls && d != e ==> Apart(q.calls[d], q.calls[e])
    ensures Inv(Goto(q, c, pc), slaves)
  {
    hide InRange, HasInserted, Lists, Distinct;
    SameTables(q, Goto(q, c, pc), slaves);
    forall d | d in q.calls && d != c
      ensures CallOk(Goto(q, c, pc), slaves, q.calls[d])
    {
      SameCallOk(q, Goto(q, c, pc), slaves, q.calls[d]);
    }
  }

  lemma SameTables(p: Part, q: Part, slaves: map<string, Slave>)
    requires q == p.(calls := q.calls)
    requires forall key :: key in p.log ==> Complete(p, key, p.log[key])
    requires forall key :: key in p.measurements ==> Accounted(p, slaves, key)
    ensures forall key :: key in q.log ==> Complete(q, key, q.log[key])
    ensures forall key :: key in q.measurements ==> Accounted(q, slaves, key)
  {
    hide InRange, Lists, Distinct;
    forall key | key in q.log
      ensures Complete(q, key, q.log[key])
    {
      assert Complete(p, key, p.log[key]);
    }
    forall key | key in q.measurements
      ensures Accounted(q, slaves, key)
    {
      assert Accounted(p, slaves, key);
    }
  }

  lemma SameCallOk(p: Part, q: Part, slaves: map<string, Slave>, call: Call)
    requires q == p.(calls := q.calls) && CallOk(p, slaves, call)
    ensures CallOk(q, slaves, call)
  {
    hide InRange, Distinct;
  }

  lemma NothingListedYet(p: Part, slaves: map<string, Slave>, c: nat, key: MeasureKey)
    requires Inv(p, slaves) && c in p.calls && p.calls[c].pc == Inserting(|p.calls[c].b.readings|)
    requires key in p.measurements
    ensures !Lists(p.calls[c].b, |p.calls[c].b.readings|, key)
  {
  }

  lemma CommitCompletes(p: Part, slaves: map<string, Slave>, c: nat)
    requires Inv(p, slaves) && c in p.calls && p.calls[c].pc == Inserting(|p.calls[c].b.readings|)
    ensures var q := Committed(p, p.calls[c]);
            q.batches.Keys == q.log.Keys && forall key :: key in q.log ==> Complete(q, key, q.log[key])
  {
    hide InRange, Apart, Lists, WithRows, WithOrigin;
    var call := p.calls[c];
    var n := |call.b.readings|;
    var q := Committed(p, call);
    assert CallOk(p, slaves, call);
    forall key | key in q.log
      ensures Complete(q, key, q.log[key])
    {
      var b := q.log[key];
      if key != KeyOf(call) {
        assert Complete(p, key, b);
      }
      forall i | 0 <= i < |b.readings|
        ensures Key(b, i) in q.measurements && q.measurements[Key(b, i)] == b.readings[i]
        ensures Key(b, i) in q.origin && q.origin[Key(b, i)] == key
      {
        OriginAt(p.origin, call.b, n, KeyOf(call), Key(b, i));
        if key == KeyOf(call) {
          WithRowsAt(p.measurements, b, n, i);
        } else {
          NothingListedYet(p, slaves, c, Key(b, i));
          RowsAt(p.measurements, call.b, n, Key(b, i));
        }
      }
    }
  }

  lemma CommitAccounts(p: Part, slaves: map<string, Slave>, c: nat)
    requires Inv(p, slaves) && c in p.calls && p.calls[c].pc == Inserting(|p.calls[c].b.readings|)
    ensures var q := Committed(p, p.calls[c]); forall key :: key in q.measurements ==> Accounted(q, slaves, key)
  {
    hide WithRows, WithOrigin, Apart, Complete;
    var call := p.calls[c];
    var b, n := call.b, |call.b.readings|;
    var q := Committed(p, call);
    assert CallOk(p, slaves, call);
    forall key | key in q.measurements
      ensures Accounted(q, slaves, key)
    {
      RowsAt(p.measurements, b, n, key);
      OriginAt(p.origin, b, n, KeyOf(call), key);
      if key in p.measurements {
        assert Accounted(p, slaves, key);
        NothingListedYet(p, slaves, c, key);
      } else {
        var i :| 0 <= i < n && Key(b, i) == key;
        WithRowsAt(p.measurements, b, n, i);
      }
    }
  }

  /** What another open transaction has inserted is still new. */
  lemma CommitSpares(p: Part, slaves: map<string, Slave>, c: nat, d: nat)
    requires Inv(p, slaves) && c in p.calls && p.calls[c].pc == Inserting(|p.calls[c].b.readings|)
    requires d in p.calls && d != c
    ensures CallOk(Committed(p, p.calls[c]), slaves, p.calls[d])
  {
    hide WithRows, WithOrigin, Complete, Accounted;
    var call, other := p.calls[c], p.calls[d];
    assert CallOk(p, slaves, other) && Apart(call, other);
    if other.pc.Inserting? {
      forall i | 0 <= i < other.pc.k
        ensures Key(other.b, i) !in Committed(p, call).measurements
      {
        assert HasInserted(other, Key(other.b, i));
        assert !HasInserted(call, Key(other.b, i));
        RowsAt(p.measurements, call.b, |call.b.readings|, Key(other.b, i));
      }
    }
  }

  /** Slaves are only ever added. */
  lemma SlavesMayGrow(p: Part, before: map<string, Slave>, after: map<string, Slave>)
    requires Inv(p, before) && before.Keys <= after.Keys
    ensures Inv(p, after)
  {
  }

  /** A reading is accepted only for a slave that is bound to the sending master, and enabled, when its own statement
      runs; what was true when the transaction began does not matter. */
  lemma ReadingNeedsItsBindingNow(p: Part, masters: map<string, Master>, slaves: map<string, Slave>, c: nat,
                                  acknowledged: bool)
    requires c in p.calls && p.calls[c].pc.Inserting? && p.calls[c].pc.k < |p.calls[c].b.readings|
    requires !Bound(slaves, p.calls[c].m, p.calls[c].b.readings[p.calls[c].pc.k].slave)
    ensures Next(p, masters, slaves, Move(c, acknowledged)).Some?
    ensures Next(p, masters, slaves, Move(c, acknowledged)).value == Goto(p, c, Stopped)
  {
  }

  /** The foreign key of telemetry_batches. */
  ghost predicate KnownMasters(p: Part, masters: map<string, Master>) {
    (forall key :: key in p.batches ==> key.master in masters)
    && (forall c :: c in p.calls && p.calls[c].pc.Inserting? ==> p.calls[c].m in masters)
  }

  lemma GotoKeepsKnownMasters(p: Part, masters: map<string, Master>, c: nat, pc: Pc)
    requires KnownMasters(p, masters) && c in p.calls && (pc.Inserting? ==> p.calls[c].m in masters)
    ensures KnownMasters(Goto(p, c, pc), masters)
  {
  }

  lemma StepKeepsKnownMasters(p: Part, masters: map<string, Master>, slaves: map<string, Slave>, step: Step)
    requires KnownMasters(p, masters) && Next(p, masters, slaves, step).Some?
    ensures KnownMasters(Next(p, masters, slaves, step).value, masters)
  {
    hide KnownMasters, InsertReading, Committed, Goto, InFlight, BatchPending;
    match step
    case Begin(c, m, b) => BeginKeepsKnownMasters(p, masters, c, Call(m, b, Start));
    case Abort(c) => GotoKeepsKnownMasters(p, masters, c, Stopped);
    case Move(c, acknowledged) =>
      var call := p.calls[c];
      match call.pc
      case Start =>
        GotoKeepsKnownMasters(p, masters, c, Stopped);
        GotoKeepsKnownMasters(p, masters, c, Returned(false));
        if call.m in masters {
          GotoKeepsKnownMasters(p, masters, c, Inserting(0));
        }
      case Inserting(k) =>
        InsertingKnowsItsMaster(p, masters, c);
        if k < |call.b.readings| {
          GotoKeepsKnownMasters(p, masters, c, Stopped);
          GotoKeepsKnownMasters(p, masters, c, Inserting(k + 1));
          InsertGoesTo(p, slaves, c, k);
        } else {
          CommittedKeepsKnownMasters(p, masters, call);
          CommittedCalls(p, call);
          GotoKeepsKnownMasters(Committed(p, call), masters, c, if acknowledged then Returned(true) else Stopped);
        }
  }

  lemma InsertGoesTo(p: Part, slaves: map<string, Slave>, c: nat, k: nat)
    requires c in p.calls && k < |p.calls[c].b.readings| && InsertReading(p, slaves, c, k).Some?
    ensures InsertReading(p, slaves, c, k).value == Goto(p, c, Stopped)
            || InsertReading(p, slaves, c, k).value == Goto(p, c, Inserting(k + 1))
  {
    hide Bound, InRange, HasInserted, MeasurePending, Goto;
  }

  lemma InsertingKnowsItsMaster(p: Part, masters: map<string, Master>, c: nat)
    requires KnownMasters(p, masters) && c in p.calls && p.calls[c].pc.Inserting?
    ensures p.calls[c].m in masters
  {
  }

  lemma BeginKeepsKnownMasters(p: Part, masters: map<string, Master>, c: nat, call: Call)
    requires KnownMasters(p, masters) && call.pc.Start?
    ensures KnownMasters(p.(calls := p.calls[c := call]), masters)
  {
  }

  lemma CommittedKeepsKnownMasters(p: Part, masters: map<string, Master>, call: Call)
    requires KnownMasters(p, masters) && call.m in masters
    ensures KnownMasters(Committed(p, call), masters)
  {
  }

  /** Delivering a stored batch again ends without an error and without a change. */
  lemma RedeliveryIsNoOp(p: Part, masters: map<string, Master>, slaves: map<string, Slave>, c: nat, acknowledged: bool)
    requires Inv(p, slaves) && KnownMasters(p, masters)
    requires c in p.calls && p.calls[c].pc.Start? && KeyOf(p.calls[c]) in p.batches
    ensures Next(p, masters, slaves, Move(c, acknowledged)) == Some(Goto(p, c, Returned(false)))
  {
  }

  // ---------------------------------------------------------------------------
  // Redeliveries can be dropped
  // ---------------------------------------------------------------------------

  /** The call has not begun, or has inserted nothing and found its batch in the tables or not looked yet. */
  predicate Idle(p: Part, c: nat) {
    c in p.calls ==> p.calls[c].pc.Start? || p.calls[c].pc == Returned(false)
  }

  ghost predicate AllIdle(p: Part, dropped: set<nat>) {
    forall c :: c in dropped ==> Idle(p, c)
  }

  function Without(p: Part, dropped: set<nat>): Part {
    p.(calls := p.calls - dropped)
  }

  lemma IdleBefore(p: Part, masters: map<string, Master>, slaves: map<string, Slave>, step: Step, c: nat)
    requires Next(p, masters, slaves, step).Some? && Idle(Next(p, masters, slaves, step).value, c)
    ensures Idle(p, c)
  {
    hide InFlight, BatchPending, InsertReading, Committed, Goto;
    match step
    case Begin(_, _, _) =>
    case Abort(d) => IdleBeforeGoto(p, d, Stopped, c);
    case Move(d, acknowledged) =>
      IdleBeforeGoto(p, d, Stopped, c);
      match p.calls[d].pc
      case Start =>
        IdleBeforeGoto(p, d, Returned(false), c);
        IdleBeforeGoto(p, d, Inserting(0), c);
      case Inserting(k) =>
        if k < |p.calls[d].b.readings| {
          IdleBeforeInsert(p, slaves, d, c);
        } else {
          CommittedCalls(p, p.calls[d]);
          IdleBeforeGoto(Committed(p, p.calls[d]), d, if acknowledged then Returned(true) else Stopped, c);
        }
  }

  /** A call becomes idle only from idle. */
  lemma IdleBeforeGoto(p: Part, d: nat, pc: Pc, c: nat)
    requires d in p.calls && (pc == Returned(false) ==> p.calls[d].pc.Start?) && !pc.Start?
    ensures Idle(Goto(p, d, pc), c) ==> Idle(p, c)
  {
  }

  lemma IdleBeforeInsert(p: Part, slaves: map<string, Slave>, d: nat, c: nat)
    requires d in p.calls && p.calls[d].pc.Inserting? && p.calls[d].pc.k < |p.calls[d].b.readings|
    requires InsertReading(p, slaves, d, p.calls[d].pc.k).Some?
    requires Idle(InsertReading(p, slaves, d, p.calls[d].pc.k).value, c)
    ensures Idle(p, c)
  {
    hide Bound, InRange, HasInserted, MeasurePending;
  }

  lemma CommittedCalls(p: Part, call: Call)
    ensures Committed(p, call).calls == p.calls
  {
    hide WithRows, WithOrigin;
  }

  /** A step of a call that stays idle changes nothing else. */
  lemma DroppedStep(p: Part, masters: map<string, Master>, slaves: map<string, Slave>, step: Step, dropped: set<nat>)
    requires Next(p, masters, slaves, step).Some? && step.c in dropped
    requires AllIdle(Next(p, masters, slaves, step).value, dropped)
    ensures Without(Next(p, masters, slaves, step).value, dropped) == Without(p, dropped)
  {
    hide BatchPending, InsertReading, Committed;
    IdleBefore(p, masters, slaves, step, step.c);
  }

  lemma SameBatchPending(p: Part, dropped: set<nat>, key: BatchKey)
    requires AllIdle(p, dropped)
    ensures BatchPending(Without(p, dropped), key) == BatchPending(p, key)
  {
    if BatchPending(p, key) {
      var d :| d in p.calls && p.calls[d].pc.Inserting? && KeyOf(p.calls[d]) == key;
      assert d !in dropped;
      assert d in Without(p, dropped).calls;
    }
  }

  lemma SameMeasurePending(p: Part, dropped: set<nat>, c: nat, key: MeasureKey)
    requires AllIdle(p, dropped)
    ensures MeasurePending(Without(p, dropped), c, key) == MeasurePending(p, c, key)
  {
    hide Lists;
    if MeasurePending(p, c, key) {
      var d :| d in p.calls && d != c && HasInserted(p.calls[d], key);
      assert d !in dropped;
      assert d in Without(p, dropped).calls;
    }
  }

  lemma DropsCommute(calls: map<nat, Call>, dropped: set<nat>, c: nat, call: Call)
    requires c !in dropped
    ensures (calls - dropped)[c := call] == calls[c := call] - dropped
  {
  }

  lemma KeptGoto(p: Part, dropped: set<nat>, c: nat, pc: Pc)
    requires c in p.calls && c !in dropped
    ensures c in Without(p, dropped).calls && Without(p, dropped).calls[c] == p.calls[c]
    ensures Goto(Without(p, dropped), c, pc) == Without(Goto(p, c, pc), dropped)
  {
    DropsCommute(p.calls, dropped, c, p.calls[c].(pc := pc));
  }

  lemma KeptInsert(p: Part, slaves: map<string, Slave>, dropped: set<nat>, c: nat, k: nat)
    requires c in p.calls && c !in dropped && k < |p.calls[c].b.readings| && AllIdle(p, dropped)
    ensures c in Without(p, dropped).calls && Without(p, dropped).calls[c] == p.calls[c]
    ensures InsertReading(Without(p, dropped), slaves, c, k)
            == match InsertReading(p, slaves, c, k)
               case None => None
               case Some(q) => Some(Without(q, dropped))
  {
    hide Bound, InRange, HasInserted, MeasurePending, Goto, AllIdle;
    SameMeasurePending(p, dropped, c, Key(p.calls[c].b, k));
    KeptGoto(p, dropped, c, Stopped);
    KeptGoto(p, dropped, c, Inserting(k + 1));
  }

  lemma KeptCommit(p: Part, dropped: set<nat>, c: nat, pc: Pc)
    requires c in p.calls && c !in dropped
    ensures c in Committed(Without(p, dropped), p.calls[c]).calls
    ensures Goto(Committed(Without(p, dropped), p.calls[c]), c, pc)
              == Without(Goto(Committed(p, p.calls[c]), c, pc), dropped)
  {
    hide WithRows, WithOrigin;
    DropsCommute(p.calls, dropped, c, p.calls[c].(pc := pc));
  }

  /** No other step depends on idle calls. */
  lemma KeptStep(p: Part, masters: map<string, Master>, slaves: map<string, Slave>, step: Step, dropped: set<nat>)
    requires Next(p, masters, slaves, step).Some? && step.c !in dropped && AllIdle(p, dropped)
    ensures Next(Without(p, dropped), masters, slaves, step)
            == Some(Without(Next(p, masters, slaves, step).value, dropped))
  {
    hide BatchPending, InsertReading, Committed, Goto, AllIdle, InFlight;
    match step
    case Begin(c, m, b) => DropsCommute(p.calls, dropped, c, Call(m, b, Start));
    case Abort(c) => KeptGoto(p, dropped, c, Stopped);
    case Move(c, acknowledged) =>
      var call := p.calls[c];
      match call.pc
      case Start =>
        SameBatchPending(p, dropped, KeyOf(call));
        KeptGoto(p, dropped, c, Stopped);
        KeptGoto(p, dropped, c, if KeyOf(call) in p.batches then Returned(false) else Inserting(0));
      case Inserting(k) =>
        KeptGoto(p, dropped, c, Stopped);
        if k < |call.b.readings| {
          KeptInsert(p, slaves, dropped, c, k);
        } else {
          KeptCommit(p, dropped, c, if acknowledged then Returned(true) else Stopped);
        }
  }
}
