/** The statement-by-statement transaction of `BatchIngest`, run without interference, is the sequential one. */
module BatchAlone {
  import opened Bytes
  import opened HostTables
  import opened BatchIngest
  import StoreBatch

  ghost predicate NobodyElseInserts(p: Part, c: nat) {
    forall d :: d in p.calls && d != c ==> !p.calls[d].pc.Inserting?
  }

  /** The part after at most `n` moves of the call `c` alone. */
  function Alone(p: Part, masters: map<string, Master>, slaves: map<string, Slave>, c: nat, n: nat): Part
    decreases n
  {
    if n == 0 then p
    else
      match Next(p, masters, slaves, Move(c, true))
      case None => p
      case Some(q) => Alone(q, masters, slaves, c, n - 1)
  }

  lemma EndedStays(p: Part, masters: map<string, Master>, slaves: map<string, Slave>, c: nat, n: nat)
    requires c in p.calls && !InFlight(p.calls[c])
    ensures Alone(p, masters, slaves, c, n) == p
  {
  }

  /** The tables a transaction sees after its first `k` readings. */
  function Seen(p: Part, t: Tables, c: nat): Tables
    requires c in p.calls && p.calls[c].pc.Inserting? && p.calls[c].pc.k <= |p.calls[c].b.readings|
  {
    t.(measurements := WithRows(p.measurements, p.calls[c].b, p.calls[c].pc.k))
  }

  lemma InsertsNext(p: Part, t: Tables, c: nat)
    requires c in p.calls && p.calls[c].pc.Inserting? && p.calls[c].pc.k < |p.calls[c].b.readings|
    requires NobodyElseInserts(p, c)
    ensures var call := p.calls[c];
            match StoreBatch.InsertReading(Seen(p, t, c), call.m, call.b, call.pc.k)
            case None => InsertReading(p, t.slaves, c, call.pc.k) == Some(Goto(p, c, Stopped))
            case Some(u) =>
              var q := Goto(p, c, Inserting(call.pc.k + 1));
              InsertReading(p, t.slaves, c, call.pc.k) == Some(q) && Seen(q, t, c) == u
  {
    hide WithRows, Lists;
    var call := p.calls[c];
    var k := call.pc.k;
    RowsAt(p.measurements, call.b, k, Key(call.b, k));
    RowsOneMore(p.measurements, call.b, k);
  }

  lemma RowsOneMore(t: map<MeasureKey, Reading>, b: Batch, k: nat)
    requires k < |b.readings|
    ensures WithRows(t, b, k + 1) == WithRows(t, b, k)[Key(b, k) := b.readings[k]]
  {
  }

  lemma AloneMoves(p: Part, masters: map<string, Master>, slaves: map<string, Slave>, c: nat, n: nat, q: Part)
    requires n > 0 && Next(p, masters, slaves, Move(c, true)) == Some(q)
    ensures Alone(p, masters, slaves, c, n) == Alone(q, masters, slaves, c, n - 1)
  {
  }

  /** `q` is how the sequential inserts from the call's next reading on leave the part. */
  predicate EndsAs(p: Part, t: Tables, c: nat, q: Part)
    requires c in p.calls && p.calls[c].pc.Inserting? && p.calls[c].pc.k <= |p.calls[c].b.readings|
  {
    var call := p.calls[c];
    match StoreBatch.InsertReadings(Seen(p, t, c), call.m, call.b, call.pc.k)
    case None => q == Goto(p, c, Stopped)
    case Some(u) =>
      q == Goto(Committed(p, call), c, Returned(true)) && q.measurements == u.measurements && u.batches == t.batches
  }

  lemma {:induction false} InsertsAlone(p: Part, t: Tables, c: nat)
    requires c in p.calls && p.calls[c].pc.Inserting? && p.calls[c].pc.k <= |p.calls[c].b.readings|
    requires NobodyElseInserts(p, c)
    ensures EndsAs(p, t, c, Alone(p, t.masters, t.slaves, c, |p.calls[c].b.readings| - p.calls[c].pc.k + 1))
    decreases |p.calls[c].b.readings| - p.calls[c].pc.k
  {
    hide WithRows, WithOrigin, InsertReading, StoreBatch.InsertReading, Committed, EndsAs, Alone, Seen;
    var call := p.calls[c];
    var n, k := |call.b.readings|, call.pc.k;
    if k < n {
      InsertsNext(p, t, c);
      var q := Next(p, t.masters, t.slaves, Move(c, true)).value;
      AloneMoves(p, t.masters, t.slaves, c, n - k + 1, q);
      if q.calls[c].pc.Inserting? {
        InsertsAlone(q, t, c);
        EndsAsBefore(p, t, c, Alone(q, t.masters, t.slaves, c, n - k));
      } else {
        EndedStays(q, t.masters, t.slaves, c, n - k);
        RefusesAsBefore(p, t, c);
      }
    } else {
      CommitsAlone(p, t, c);
    }
  }

  lemma EndsAsBefore(p: Part, t: Tables, c: nat, end: Part)
    requires c in p.calls && p.calls[c].pc.Inserting? && p.calls[c].pc.k < |p.calls[c].b.readings|
    requires NobodyElseInserts(p, c)
    requires InsertReading(p, t.slaves, c, p.calls[c].pc.k) == Some(Goto(p, c, Inserting(p.calls[c].pc.k + 1)))
    requires EndsAs(Goto(p, c, Inserting(p.calls[c].pc.k + 1)), t, c, end)
    ensures EndsAs(p, t, c, end)
  {
    hide WithRows, WithOrigin, InsertReading, StoreBatch.InsertReading, Committed, Seen;
    var k := p.calls[c].pc.k;
    InsertsNext(p, t, c);
    SameCommit(p, c, Inserting(k + 1), Returned(true));
    SameGoto(p, c, Inserting(k + 1), Stopped);
  }

  lemma RefusesAsBefore(p: Part, t: Tables, c: nat)
    requires c in p.calls && p.calls[c].pc.Inserting? && p.calls[c].pc.k < |p.calls[c].b.readings|
    requires NobodyElseInserts(p, c)
    requires InsertReading(p, t.slaves, c, p.calls[c].pc.k).Some?
    requires !InsertReading(p, t.slaves, c, p.calls[c].pc.k).value.calls[c].pc.Inserting?
    ensures EndsAs(p, t, c, InsertReading(p, t.slaves, c, p.calls[c].pc.k).value)
  {
    hide WithRows, WithOrigin, InsertReading, StoreBatch.InsertReading, Committed, Seen;
    InsertsNext(p, t, c);
  }

  /** What is committed does not depend on how far the call had come. */
  lemma SameCommit(p: Part, c: nat, pc: Pc, end: Pc)
    requires c in p.calls
    ensures var q := Goto(p, c, pc);
            Goto(Committed(q, q.calls[c]), c, end) == Goto(Committed(p, p.calls[c]), c, end)
  {
  }

  lemma SameGoto(p: Part, c: nat, pc: Pc, end: Pc)
    requires c in p.calls
    ensures Goto(Goto(p, c, pc), c, end) == Goto(p, c, end)
  {
  }

  lemma CommitsAlone(p: Part, t: Tables, c: nat)
    requires c in p.calls && p.calls[c].pc == Inserting(|p.calls[c].b.readings|)
    ensures EndsAs(p, t, c, Alone(p, t.masters, t.slaves, c, 1))
  {
    hide WithRows, WithOrigin;
    var q := Next(p, t.masters, t.slaves, Move(c, true)).value;
    assert Alone(q, t.masters, t.slaves, c, 0) == q;
  }

  /** The first statement: the master is known and the batch is new, or the call ends. */
  lemma StartsAlone(p: Part, t: Tables, c: nat)
    requires c in p.calls && p.calls[c].pc.Start? && NobodyElseInserts(p, c)
    ensures var call := p.calls[c];
            var pc := if call.m !in t.masters then Stopped
                      else if KeyOf(call) in p.batches then Returned(false)
                      else Inserting(0);
            Next(p, t.masters, t.slaves, Move(c, true)) == Some(Goto(p, c, pc))
  {
  }

  /** Run on its own, the transaction ends with the tables and the verdict of the sequential method. */
  lemma AloneIsStoreBatch(p: Part, t: Tables, c: nat)
    requires c in p.calls && p.calls[c].pc.Start? && NobodyElseInserts(p, c)
    requires t.batches == p.batches && t.measurements == p.measurements
    ensures var q := Alone(p, t.masters, t.slaves, c, |p.calls[c].b.readings| + 2);
            var (u, r) := StoreBatch.Store(t, p.calls[c].m, p.calls[c].b, true);
            q.batches == u.batches && q.measurements == u.measurements && c in q.calls
            && q.calls[c].pc == match r
                                case Stored => Returned(true)
                                case AlreadyThere => Returned(false)
                                case Rejected => Stopped
  {
    hide StoreBatch.InsertReadings, StoreBatch.InsertBatch, Next, Alone, WithRows, WithOrigin, BatchPending, Committed;
    var call := p.calls[c];
    var n := |call.b.readings|;
    StartsAlone(p, t, c);
    var q := Next(p, t.masters, t.slaves, Move(c, true)).value;
    AloneMoves(p, t.masters, t.slaves, c, n + 2, q);
    if q.calls[c].pc.Inserting? {
      var tx := StoreBatch.InsertBatch(t, call.m, call.b);
      InsertsAlone(q, tx, c);
      FirstSeen(q, t, tx, c);
      CommittedTables(q, q.calls[c]);
    } else {
      EndedStays(q, t.masters, t.slaves, c, n + 1);
    }
  }

  lemma FirstSeen(q: Part, t: Tables, tx: Tables, c: nat)
    requires c in q.calls && q.calls[c].pc == Inserting(0) && q.measurements == t.measurements
    requires tx == StoreBatch.InsertBatch(t, q.calls[c].m, q.calls[c].b)
    ensures Seen(q, tx, c) == tx && tx.masters == t.masters && tx.slaves == t.slaves
    ensures tx.batches == t.batches[KeyOf(q.calls[c]) := BatchRow(q.calls[c].b.measuredAt, q.calls[c].b.firmware)]
  {
  }

  lemma CommittedTables(p: Part, call: Call)
    ensures Committed(p, call).calls == p.calls
    ensures Committed(p, call).batches == p.batches[KeyOf(call) := BatchRow(call.b.measuredAt, call.b.firmware)]
  {
  }
}
