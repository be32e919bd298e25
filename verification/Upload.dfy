/** From the master's ring to Host's tables: what becomes of the readings of a published batch. The master looks at the
    broker's acknowledgement only (src/network/network_manager.cpp:992-1036); whether Host stores the batch is decided
    later, in vps/internal/store/store.go:38-64.
  */
module Upload {
  import opened Bytes
  import opened HostTables
  import opened TelemetryRing
  import StoreBatch

  /** The reading of an entry is in the table, under the time of the batch it came with. */
  ghost predicate IsStored(t: Tables, e: Entry, measuredAt: int) {
    MeasureKey(e.nodeId, measuredAt) in t.measurements
    && t.measurements[MeasureKey(e.nodeId, measuredAt)]
       == Reading(e.nodeId, e.ph, 0.0, e.light, e.moisture, "1.0", "esp32-slave-1.0.0")
  }

  lemma StoredRows(t: Tables, m: string, messageId: string, now: nat, sent: seq<Entry>)
    ensures var (u, r) := StoreBatch.Store(t, m, Document(messageId, now, sent), true);
            && (r == StoreBatch.Stored ==>
                  u.masters == t.masters && u.slaves == t.slaves
                  && forall k :: 0 <= k < |sent| ==> IsStored(u, sent[k], now))
            && (r != StoreBatch.Stored ==> u == t)
            && forall key :: key in t.measurements ==>
                key in u.measurements && u.measurements[key] == t.measurements[key]
  {
    hide StoreBatch.Store, InRange, Bound;
    DocumentSays(messageId, now, sent);
    var b := Document(messageId, now, sent);
    StoreBatch.StoresExactlyTheStorable(t, m, b, true);
    var (u, r) := StoreBatch.Store(t, m, b, true);
    forall k | 0 <= k < |sent| && r == StoreBatch.Stored
      ensures IsStored(u, sent[k], now)
    {
      assert Key(b, k) in u.measurements && u.measurements[Key(b, k)] == b.readings[k];
    }
  }

  /** An acknowledged batch is stored whole, or none of its readings is in any later batch: if Host refuses it, they are
      lost. Host refuses it exactly when the condition of `HostTakesTheBatchIf` fails. */
  lemma AcknowledgedIsStoredOrLost(st: State, now: nat, sent: seq<Entry>, later: seq<Step>,
                                   t: Tables, m: string, messageId: string)
    requires Inv(st) && Proper(st, Publish(now, true)) && ProperRun(Next(st, Publish(now, true)), later)
    requires Picks(st.pushed, BatchOf(st.pushed, st.sentUntil), sent)
    ensures var (u, r) := StoreBatch.Store(t, m, Document(messageId, now, sent), true);
            var after := Next(st, Publish(now, true));
            var end := Run(after, later);
            && (r == StoreBatch.Stored ==> forall k :: 0 <= k < |sent| ==> IsStored(u, sent[k], now))
            && (r != StoreBatch.Stored ==> u == t)
            && forall p, b :: p in BatchOf(st.pushed, st.sentUntil) && |after.batches| <= b < |end.batches| ==>
                 p !in end.batches[b]
  {
    hide BatchOf, StoreBatch.Store, Run, ProperRun, Inv, Proper, IsStored;
    StoredRows(t, m, messageId, now, sent);
    forall p | p in BatchOf(st.pushed, st.sentUntil)
      ensures var after := Next(st, Publish(now, true));
              forall b :: |after.batches| <= b < |Run(after, later).batches| ==> p !in Run(after, later).batches[b]
    {
      PushesKeepEligible(st.pushed, [], st.sentUntil, p);
      LeftBehindIsLost(st, now, later, p);
    }
  }

  /** From the start: two readings of one node in one interval make a batch that is acknowledged, that no database
      stores, and whose readings are in no later batch. */
  lemma TwoReadingsOfOneNodeAreLost(clock: nat, reading: Entry, later: seq<Step>,
                                    t: Tables, m: string, messageId: string)
    requires clock > CLOCK_SET
    requires ProperRun(Run(Empty(0), ConnectPushPublish(clock, seq(2, _ => reading.(time := clock + 1)), true)), later)
    ensures var es := seq(2, _ => reading.(time := clock + 1));
            var first := Run(Empty(0), ConnectPushPublish(clock, es, true));
            var st := Run(first, later);
            && ProperRun(Empty(0), ConnectPushPublish(clock, es, true)) && first.batches == [[0, 1]]
            && StoreBatch.Store(t, m, Document(messageId, clock + 5, es), true).1 != StoreBatch.Stored
            && |st.batches| >= 1 && forall b :: 0 < b < |st.batches| ==> 0 !in st.batches[b] && 1 !in st.batches[b]
  {
    hide Run, ProperRun, StoreBatch.Store;
    var es := seq(2, _ => reading.(time := clock + 1));
    var ready := Ready(clock, es);
    ConnectPushPublishRuns(clock, es, true);
    assert BatchOf(es, clock) == [0, 1] by {
      EligibleStops(es, clock, 2, 14);
      EligibleStep(es, clock, 1, 15);
      EligibleStep(es, clock, 0, 16);
    }
    StepKeeps(ready, Publish(clock + 5, true));
    RunKeeps(Next(ready, Publish(clock + 5, true)), later);
    LeftBehindIsLost(ready, clock + 5, later, 0);
    LeftBehindIsLost(ready, clock + 5, later, 1);
    HostTakesTheBatchIf(t, m, messageId, clock + 5, es);
    assert es[0].nodeId == es[1].nodeId;
  }

  /** When Host stores a batch but the acknowledgement is lost, the next publish sends the same readings under a new
      message id and a new time. Host stores them a second time exactly when that id is new and none of the nodes has a
      measurement of that time; each reading is then in the table twice. */
  lemma LostAcknowledgementStoresTwice(st: State, now: nat, now2: nat, sent: seq<Entry>,
                                       t: Tables, m: string, id: string, id2: string)
    requires BatchOf(st.pushed, st.sentUntil) != [] && Picks(st.pushed, BatchOf(st.pushed, st.sentUntil), sent)
    requires StoreBatch.Store(t, m, Document(id, now, sent), true).1 == StoreBatch.Stored
    ensures var again := Next(st, Publish(now, false));
            var u := StoreBatch.Store(t, m, Document(id, now, sent), true).0;
            var (v, r) := StoreBatch.Store(u, m, Document(id2, now2, sent), true);
            && Picks(again.pushed, BatchOf(again.pushed, again.sentUntil), sent)
            && (r == StoreBatch.Stored <==>
                  BatchKey(m, id2) !in u.batches
                  && forall k :: 0 <= k < |sent| ==> MeasureKey(sent[k].nodeId, now2) !in u.measurements)
            && (r == StoreBatch.Stored ==>
                  now2 != now && forall k :: 0 <= k < |sent| ==>
                      IsStored(v, sent[k], now) && IsStored(v, sent[k], now2))
  {
    hide BatchOf, StoreBatch.Store, InRange, Bound, Picks;
    var u := StoreBatch.Store(t, m, Document(id, now, sent), true).0;
    StoredRows(t, m, id, now, sent);
    StoredRows(u, m, id2, now2, sent);
    HostTakesTheBatchIf(t, m, id, now, sent);
    HostTakesTheBatchIf(u, m, id2, now2, sent);
    assert sent != [] by { NotEmpty(st, sent); }
    assert IsStored(u, sent[0], now);
  }

  lemma NotEmpty(st: State, sent: seq<Entry>)
    requires BatchOf(st.pushed, st.sentUntil) != [] && Picks(st.pushed, BatchOf(st.pushed, st.sentUntil), sent)
    ensures sent != []
  {
    hide BatchOf;
  }
}
