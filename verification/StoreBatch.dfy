/** vps/internal/store/store.go, StoreBatch, with the consumer in front of it: one transaction that adds a batch
    and all its readings, or changes nothing.
  */
module StoreBatch {
  import opened Bytes
  import opened HostTables

  datatype Result = Stored | AlreadyThere | Rejected

  // ---------------------------------------------------------------------------
  // The transaction
  // ---------------------------------------------------------------------------

  /** INSERT INTO measurements for one reading; None when the statement fails or inserts no row. */
  function InsertReading(t: Tables, m: string, b: Batch, k: nat): Option<Tables>
    requires k < |b.readings|
  {
    var r := b.readings[k];
    if !Bound(t.slaves, m, r.slave) || !InRange(r) || Key(b, k) in t.measurements then None
    else Some(t.(measurements := t.measurements[Key(b, k) := r]))
  }

  function InsertReadings(t: Tables, m: string, b: Batch, k: nat): Option<Tables>
    requires k <= |b.readings|
    decreases |b.readings| - k
  {
    if k == |b.readings| then Some(t)
    else
      match InsertReading(t, m, b, k)
      case None => None
      case Some(u) => InsertReadings(u, m, b, k + 1)
  }

  function InsertBatch(t: Tables, m: string, b: Batch): Tables {
    t.(batches := t.batches[BatchKey(m, b.messageId) := BatchRow(b.measuredAt, b.firmware)])
  }

  function Store(t: Tables, m: string, b: Batch, commits: bool): (Tables, Result) {
    if m !in t.masters then (t, Rejected)
    else if BatchKey(m, b.messageId) in t.batches then (t, AlreadyThere)
    else
      match InsertReadings(InsertBatch(t, m, b), m, b, 0)
      case None => (t, Rejected)
      case Some(u) => if commits then (u, Stored) else (t, Rejected)
  }

  /** The database; a transaction works on a copy that becomes the tables at commit. */
  class Database {
    var tables: Tables

    method StoreBatch(m: string, b: Batch, commits: bool) returns (r: Result)
      modifies this
      ensures (tables, r) == Store(old(tables), m, b, commits)
    {
      if m !in tables.masters {
        return Rejected;
      }
      var key := BatchKey(m, b.messageId);
      if key in tables.batches {
        return AlreadyThere;
      }
      var tx := tables.(batches := tables.batches[key := BatchRow(b.measuredAt, b.firmware)]);
      for k := 0 to |b.readings|
        invariant InsertReadings(InsertBatch(tables, m, b), m, b, 0) == InsertReadings(tx, m, b, k)
        invariant tables == old(tables)
      {
        var reading := b.readings[k];
        if !Bound(tx.slaves, m, reading.slave) || !InRange(reading) || Key(b, k) in tx.measurements {
          return Rejected;
        }
        tx := tx.(measurements := tx.measurements[Key(b, k) := reading]);
      }
      if !commits {
        return Rejected;
      }
      tables := tx;
      r := Stored;
    }
  }

  // ---------------------------------------------------------------------------
  // All or nothing, with an exact condition
  // ---------------------------------------------------------------------------

  /** The batch can be stored: known master, new message, distinct enabled slaves bound to it, new rows in range. */
  ghost predicate Storable(t: Tables, m: string, b: Batch) {
    m in t.masters && BatchKey(m, b.messageId) !in t.batches
    && (forall i, j :: 0 <= i < j < |b.readings| ==> b.readings[i].slave != b.readings[j].slave)
    && (forall k :: 0 <= k < |b.readings| ==>
          Bound(t.slaves, m, b.readings[k].slave) && InRange(b.readings[k]) && Key(b, k) !in t.measurements)
  }

  /** `u` is `t` with one row more for each reading from the `k`-th on, and nothing else changed. */
  ghost predicate AddsRows(t: Tables, u: Tables, b: Batch, k: nat)
    requires k <= |b.readings|
  {
    u == t.(measurements := u.measurements)
    && (forall key :: key in t.measurements ==> key in u.measurements && u.measurements[key] == t.measurements[key])
    && (forall key :: key in u.measurements && key !in t.measurements ==>
        exists i :: k <= i < |b.readings| && key == Key(b, i))
    && (forall i :: k <= i < |b.readings| ==>
          Key(b, i) !in t.measurements && Key(b, i) in u.measurements && u.measurements[Key(b, i)] == b.readings[i])
    && |u.measurements| == |t.measurements| + |b.readings| - k
  }

  ghost predicate Insertable(t: Tables, m: string, b: Batch, k: nat) {
    (forall i, j :: k <= i < j < |b.readings| ==> b.readings[i].slave != b.readings[j].slave)
    && (forall i :: k <= i < |b.readings| ==>
          Bound(t.slaves, m, b.readings[i].slave) && InRange(b.readings[i]) && Key(b, i) !in t.measurements)
  }

  lemma {:induction false} InsertsAll(t: Tables, m: string, b: Batch, k: nat)
    requires k <= |b.readings|
    ensures InsertReadings(t, m, b, k).Some? <==> Insertable(t, m, b, k)
    ensures InsertReadings(t, m, b, k).Some? ==> AddsRows(t, InsertReadings(t, m, b, k).value, b, k)
    decreases |b.readings| - k
  {
    if k == |b.readings| {
      AddsNothing(t, b);
    } else {
      hide AddsRows, Insertable, InRange, Bound;
      match InsertReading(t, m, b, k)
      case None =>
        RefusesOne(t, m, b, k);
      case Some(u) =>
        InsertsAll(u, m, b, k + 1);
        InsertableStep(t, m, b, k);
        if InsertReadings(u, m, b, k + 1).Some? {
          NoneListed(u, m, b, k + 1);
          AddedOne(t, InsertReadings(u, m, b, k + 1).value, b, k);
        }
    }
  }

  lemma AddsNothing(t: Tables, b: Batch)
    ensures AddsRows(t, t, b, |b.readings|)
  {
  }

  lemma RefusesOne(t: Tables, m: string, b: Batch, k: nat)
    requires k < |b.readings| && InsertReading(t, m, b, k).None?
    ensures !Insertable(t, m, b, k)
  {
    hide Bound, InRange;
  }

  /** The rest can be inserted after the k-th reading iff all from the k-th on could be before. */
  lemma InsertableStep(t: Tables, m: string, b: Batch, k: nat)
    requires k < |b.readings| && InsertReading(t, m, b, k).Some?
    ensures Insertable(t, m, b, k) <==> Insertable(InsertReading(t, m, b, k).value, m, b, k + 1)
  {
    hide InRange, Bound;
    var u := InsertReading(t, m, b, k).value;
    assert forall i :: k < i < |b.readings| ==>
      (Key(b, i) !in u.measurements <==> Key(b, i) !in t.measurements && b.readings[i].slave != b.readings[k].slave);
  }

  lemma NoneListed(u: Tables, m: string, b: Batch, k: nat)
    requires Insertable(u, m, b, k)
    ensures forall i :: k <= i < |b.readings| ==> Key(b, i) !in u.measurements
  {
    hide InRange, Bound;
  }

  lemma AddedOne(t: Tables, v: Tables, b: Batch, k: nat)
    requires k < |b.readings| && Key(b, k) !in t.measurements
    requires AddsRows(t.(measurements := t.measurements[Key(b, k) := b.readings[k]]), v, b, k + 1)
    requires forall i :: k < i < |b.readings| ==> Key(b, i) !in t.measurements[Key(b, k) := b.readings[k]]
    ensures AddsRows(t, v, b, k)
  {
    var u := t.(measurements := t.measurements[Key(b, k) := b.readings[k]]);
    OneRowMore(t.measurements, Key(b, k), b.readings[k]);
    assert Key(b, k) in u.measurements;
    forall key | key in v.measurements && key !in t.measurements
      ensures exists i :: k <= i < |b.readings| && key == Key(b, i)
    {
      assert key in u.measurements ==> key == Key(b, k);
    }
    forall key | key in t.measurements
      ensures key in v.measurements && v.measurements[key] == t.measurements[key]
    {
      assert key in u.measurements && u.measurements[key] == t.measurements[key];
    }
  }

  lemma OneRowMore(rows: map<MeasureKey, Reading>, key: MeasureKey, r: Reading)
    requires key !in rows
    ensures |rows[key := r]| == |rows| + 1
  {
    assert rows[key := r].Keys == rows.Keys + {key};
  }

  /** A batch is stored if and only if it is storable; then it adds its row and one row per reading, and in every
      other case the database is unchanged. */
  lemma StoresExactlyTheStorable(t: Tables, m: string, b: Batch, commits: bool)
    ensures var (u, r) := Store(t, m, b, commits);
            && (r == Stored <==> Storable(t, m, b) && commits)
            && (r == Stored ==>
                  u.batches == t.batches[BatchKey(m, b.messageId) := BatchRow(b.measuredAt, b.firmware)]
                  && AddsRows(t, u.(batches := t.batches), b, 0))
            && (r != Stored ==> u == t)
  {
    if m in t.masters && BatchKey(m, b.messageId) !in t.batches {
      InsertsAll(InsertBatch(t, m, b), m, b, 0);
    }
  }

  // ---------------------------------------------------------------------------
  // At-least-once delivery
  // ---------------------------------------------------------------------------

  /** A delivery, or any other committed change of Host: none of them removes or rewrites a batch row. */
  datatype Event =
    | Deliver(m: string, b: Batch, commits: bool)
    | SetMaster(m: string, master: Master)                // creation, enrollment, disabling
    | SetSlave(s: string, slave: Slave, pot: string)      // creation, transfer, disabling

  function After(t: Tables, e: Event): Tables {
    match e
    case Deliver(m, b, commits) => Store(t, m, b, commits).0
    case SetMaster(m, master) => t.(masters := t.masters[m := master])
    case SetSlave(s, slave, pot) => t.(slaves := t.slaves[s := slave], pots := t.pots[slave.pot := pot])
  }

  function Run(t: Tables, es: seq<Event>): Tables {
    if es == [] then t else After(Run(t, es[..|es| - 1]), es[|es| - 1])
  }

  /** The `i`-th event of the run delivers a batch that is stored. */
  ghost predicate StoresAt(t: Tables, es: seq<Event>, i: nat, key: BatchKey)
    requires i < |es|
  {
    es[i].Deliver? && key == BatchKey(es[i].m, es[i].b.messageId)
    && Store(Run(t, es[..i]), es[i].m, es[i].b, es[i].commits).1 == Stored
  }

  ghost predicate StoredBefore(t: Tables, es: seq<Event>, n: nat, key: BatchKey)
    requires n <= |es|
  {
    exists i :: 0 <= i < n && StoresAt(t, es, i, key)
  }

  /** The last event of the run repeats a delivery whose batch was stored before. */
  ghost predicate Repeats(t: Tables, es: seq<Event>) {
    es != [] && es[|es| - 1].Deliver?
    && StoredBefore(t, es, |es| - 1, BatchKey(es[|es| - 1].m, es[|es| - 1].b.messageId))
  }

  /** The run without the repeats of stored batches. */
  ghost function WithoutRepeats(t: Tables, es: seq<Event>): seq<Event> {
    if es == [] then []
    else WithoutRepeats(t, es[..|es| - 1]) + if Repeats(t, es) then [] else [es[|es| - 1]]
  }

  lemma {:induction false} StoredStays(t: Tables, es: seq<Event>, i: nat, key: BatchKey)
    requires i < |es| && StoresAt(t, es, i, key)
    ensures key in Run(t, es).batches
    decreases |es|
  {
    var n := |es| - 1;
    var before := Run(t, es[..n]);
    if es[n].Deliver? {
      StoresExactlyTheStorable(before, es[n].m, es[n].b, es[n].commits);
    }
    if i < n {
      assert es[..n][..i] == es[..i];
      StoredStays(t, es[..n], i, key);
    }
  }

  /** Redelivering a batch that once committed changes nothing, in whatever state that happens. */
  lemma RepeatIsNoOp(t: Tables, es: seq<Event>)
    requires Repeats(t, es)
    ensures Run(t, es) == Run(t, es[..|es| - 1])
    ensures var e := es[|es| - 1]; Store(Run(t, es[..|es| - 1]), e.m, e.b, e.commits).1 != Stored
  {
    var n := |es| - 1;
    var key := BatchKey(es[n].m, es[n].b.messageId);
    var i :| 0 <= i < n && StoresAt(t, es, i, key);
    assert es[..n][..i] == es[..i];
    StoredStays(t, es[..n], i, key);
  }

  /** A run with repeated deliveries ends in the same tables as the run with the repeats removed. */
  lemma {:induction false} AtLeastOnceIsExactlyOnce(t: Tables, es: seq<Event>)
    ensures Run(t, WithoutRepeats(t, es)) == Run(t, es)
    decreases |es|
  {
    if es != [] {
      var n := |es| - 1;
      AtLeastOnceIsExactlyOnce(t, es[..n]);
      var kept := WithoutRepeats(t, es[..n]);
      if Repeats(t, es) {
        RepeatIsNoOp(t, es);
        assert kept + [] == kept;
      } else {
        assert (kept + [es[n]])[..|kept|] == kept;
      }
    }
  }
}
