/** The master's retry queue for slave enrollments: onSlaveHello, slaveEnroll and flushPendingSlaves of
    src/network/network_manager.cpp. The HTTP status of each attempt is the backend's choice; a negative number means
    that no answer came. */
module PendingSlaves {
  import opened Bytes

  const SLOTS: nat := 4      // of each of the two tables
  const ID_LEN: nat := 8
  const LABEL_LEN: nat := 48
  const TOKEN_LEN: nat := 160

  /** strlcpy into a field of `n` characters. */
  function Fit(s: string, n: nat): string {
    s[..Min(|s|, n)]
  }

  datatype Item = Item(id: string, nodeLabel: string, token: string)

  function Stored(id: string, nodeLabel: string, token: string): Item {
    Item(Fit(id, ID_LEN), Fit(nodeLabel, LABEL_LEN), Fit(token, TOKEN_LEN))
  }

  /** What fits the fields: 8 characters of an id, 48 of a label, 160 of a token; the tables have four places. */
  lemma StoredIs(id: string, nodeLabel: string, token: string)
    ensures var item := Stored(id, nodeLabel, token);
            && item.id <= id && |item.id| == Min(|id|, 8)
            && item.nodeLabel <= nodeLabel && |item.nodeLabel| == Min(|nodeLabel|, 48)
            && item.token <= token && |item.token| == Min(|token|, 160) && SLOTS == 4
  {
  }

  /** The two tables. `accepted` is kept for the proof only: every id the backend ever accepted. */
  datatype State = State(pending: seq<Item>, enrolled: seq<string>, accepted: set<string>)

  /** 201 created, or 409, which the code takes for bound already. */
  predicate IsAccepted(code: int) {
    code == 201 || code == 409
  }

  predicate IsPending(pending: seq<Item>, id: string) {
    exists i :: 0 <= i < |pending| && pending[i].id == id
  }

  function Queue(st: State, item: Item): State {
    if IsPending(st.pending, item.id) || |st.pending| >= SLOTS then st else st.(pending := st.pending + [item])
  }

  /** slaveEnroll when the backend accepts: a full table does not record the slave. */
  function Enrolled(st: State, id: string): State {
    st.(enrolled := if |st.enrolled| < SLOTS then st.enrolled + [id] else st.enrolled, accepted := st.accepted + {id})
  }

  /** `enabled`: a master with an upload host; `password`: it is enrolled itself. */
  function Hello(st: State, enabled: bool, password: bool, item: Item, code: int): State {
    if !enabled || item.id == "" || item.token == "" || item.id in st.enrolled then st
    else if password && IsAccepted(code) then Enrolled(st, item.id)
    else Queue(st, Stored(item.id, item.nodeLabel, item.token))
  }

  /** One item of the list: already enrolled, accepted now, or kept for the next flush. */
  function Retried(st: State, item: Item, code: int): State {
    if item.id in st.enrolled then st
    else if IsAccepted(code) then Enrolled(st, item.id)
    else if |st.pending| < SLOTS then st.(pending := st.pending + [item])
    else st
  }

  /** The loop of flushPendingSlaves over the snapshot, from the `i`-th item on. */
  function Retry(st: State, items: seq<Item>, codes: nat -> int, i: nat): State
    requires i <= |items|
    decreases |items| - i
  {
    if i == |items| then st
    else Retry(Retried(st, items[i], codes(i)), items, codes, i + 1)
  }

  function Flush(st: State, password: bool, codes: nat -> int): State {
    if st.pending == [] || !password then st else Retry(st.(pending := []), st.pending, codes, 0)
  }

  // ---------------------------------------------------------------------------
  // The handler's fields
  // ---------------------------------------------------------------------------

  class NetworkHandler {
    const pend: array<Item>
    const enrolled: array<string>
    var pendN: nat
    var enrolledN: nat
    ghost var accepted: set<string>

    ghost predicate Valid()
      reads this, pend, enrolled
    {
      pend.Length == SLOTS && enrolled.Length == SLOTS && pendN <= SLOTS && enrolledN <= SLOTS
    }

    ghost function Tables(): State
      requires Valid()
      reads this, pend, enrolled
    {
      State(pend[..pendN], enrolled[..enrolledN], accepted)
    }

    method IsSlaveEnrolled(id: string) returns (r: bool)
      requires Valid()
      ensures r <==> id in Tables().enrolled
    {
      for i := 0 to enrolledN
        invariant id !in enrolled[..i]
      {
        if enrolled[i] == id {
          assert id in enrolled[..enrolledN];
          return true;
        }
      }
      r := false;
    }

    method PushPending(id: string, nodeLabel: string, token: string)
      requires Valid() && |id| <= ID_LEN
      modifies this`pendN, pend
      ensures Valid() && Tables() == Queue(old(Tables()), Stored(id, nodeLabel, token))
    {
      assert Fit(id, ID_LEN) == id;
      for i := 0 to pendN
        invariant forall k :: 0 <= k < i ==> pend[k].id != id
        invariant pend[..] == old(pend[..]) && pendN == old(pendN)
      {
        if pend[i].id == id {
          assert Tables().pending[i].id == id;
          return;
        }
      }
      if pendN < SLOTS {
        pend[pendN] := Stored(id, nodeLabel, token);
        pendN := pendN + 1;
      }
    }

    /** `code` is the backend's answer. */
    method SlaveEnroll(id: string, code: int) returns (ok: bool)
      requires Valid()
      modifies this`enrolledN, this`accepted, enrolled
      ensures Valid() && ok == IsAccepted(code) && (ok <==> code == 201 || code == 409)
      ensures Tables() == if ok then Enrolled(old(Tables()), id) else old(Tables())
    {
      ok := IsAccepted(code);
      if ok {
        if enrolledN < SLOTS {
          enrolled[enrolledN] := id;
          enrolledN := enrolledN + 1;
        }
        accepted := accepted + {id};
      }
    }

    method OnSlaveHello(enabled: bool, password: bool, id: string, nodeLabel: string, token: string, code: int)
      requires Valid() && |id| <= ID_LEN
      modifies this, pend, enrolled
      ensures Valid() && Tables() == Hello(old(Tables()), enabled, password, Item(id, nodeLabel, token), code)
      ensures var was, now := old(Tables()), Tables();
              var asked := enabled && id != "" && token != "" && id !in was.enrolled;
              var accepted := asked && password && (code == 201 || code == 409);
              && now.accepted == (if accepted then was.accepted + {id} else was.accepted)
              && now.enrolled == (if accepted && |was.enrolled| < 4 then was.enrolled + [id] else was.enrolled)
              && now.pending == if asked && !accepted && |was.pending| < 4
                                   && forall i :: 0 <= i < |was.pending| ==> was.pending[i].id != id
                                then was.pending + [Item(id, Fit(nodeLabel, 48), Fit(token, 160))] else was.pending
    {
      HelloMeans(Tables(), enabled, password, id, nodeLabel, token, code);
      if !enabled || |id| == 0 || |token| == 0 {
        return;
      }
      var known := IsSlaveEnrolled(id);
      if known {
        return;
      }
      if !password {
        PushPending(id, nodeLabel, token);
      } else {
        var ok := SlaveEnroll(id, code);
        if !ok {
          PushPending(id, nodeLabel, token);
        }
      }
    }

    method FlushPendingSlaves(password: bool, codes: nat -> int)
      requires Valid()
      modifies this, pend, enrolled
      ensures Valid() && Tables() == Flush(old(Tables()), password, codes)
    {
      if pendN == 0 || !password {
        return;
      }
      var items := pend[..pendN];
      pendN := 0;
      assert Tables() == old(Tables()).(pending := []);
      for i := 0 to |items|
        invariant Valid()
        invariant Retry(old(Tables()).(pending := []), items, codes, 0) == Retry(Tables(), items, codes, i)
      {
        RetryPending(items[i], codes(i));
      }
    }

    /** The loop body of flushPendingSlaves. */
    method RetryPending(item: Item, code: int)
      requires Valid()
      modifies this, pend, enrolled
      ensures Valid() && Tables() == Retried(old(Tables()), item, code)
      ensures var was, now := old(Tables()), Tables();
              var accepted := item.id !in was.enrolled && (code == 201 || code == 409);
              && now.accepted == (if accepted then was.accepted + {item.id} else was.accepted)
              && now.enrolled == (if accepted && |was.enrolled| < 4 then was.enrolled + [item.id] else was.enrolled)
              && now.pending == if item.id !in was.enrolled && !accepted && |was.pending| < 4
                                then was.pending + [item] else was.pending
    {
      var known := IsSlaveEnrolled(item.id);
      if !known {
        var ok := SlaveEnroll(item.id, code);
        if !ok && pendN < SLOTS {
          pend[pendN] := item;
          pendN := pendN + 1;
          assert pend[..pendN] == old(pend[..pendN]) + [item];
        }
      }
    }
  }

  lemma HelloMeans(was: State, enabled: bool, password: bool, id: string, nodeLabel: string, token: string, code: int)
    requires |id| <= ID_LEN
    ensures var now := Hello(was, enabled, password, Item(id, nodeLabel, token), code);
            var asked := enabled && id != "" && token != "" && id !in was.enrolled;
            var accepted := asked && password && (code == 201 || code == 409);
            && now.accepted == (if accepted then was.accepted + {id} else was.accepted)
            && now.enrolled == (if accepted && |was.enrolled| < 4 then was.enrolled + [id] else was.enrolled)
            && now.pending == if asked && !accepted && |was.pending| < 4
                                 && forall i :: 0 <= i < |was.pending| ==> was.pending[i].id != id
                              then was.pending + [Item(id, Fit(nodeLabel, 48), Fit(token, 160))] else was.pending
  {
    assert Fit(id, ID_LEN) == id;
    assert IsPending(was.pending, id) <==> exists i :: 0 <= i < |was.pending| && was.pending[i].id == id;
  }

  // ---------------------------------------------------------------------------
  // Runs
  // ---------------------------------------------------------------------------

  datatype Step =
    | HelloStep(enabled: bool, password: bool, item: Item, code: int)
    | FlushStep(password: bool, codes: nat -> int)

  function Next(st: State, step: Step): State {
    match step
    case HelloStep(enabled, password, item, code) => Hello(st, enabled, password, item, code)
    case FlushStep(password, codes) => Flush(st, password, codes)
  }

  function Run(st: State, steps: seq<Step>): State {
    if steps == [] then st else Next(Run(st, steps[..|steps| - 1]), steps[|steps| - 1])
  }

  /** Ids come out of a field of eight characters. */
  ghost predicate ShortIds(steps: seq<Step>) {
    forall i :: 0 <= i < |steps| && steps[i].HelloStep? ==> |steps[i].item.id| <= ID_LEN
  }

  ghost predicate DistinctIds(pending: seq<Item>) {
    forall i, j :: 0 <= i < j < |pending| ==> pending[i].id != pending[j].id
  }

  ghost predicate Inv(st: State) {
    |st.pending| <= SLOTS && DistinctIds(st.pending) && |st.enrolled| <= SLOTS
    && (forall id :: id in st.enrolled ==> id in st.accepted)
    && (|st.enrolled| < SLOTS ==> forall id :: id in st.accepted ==> id in st.enrolled)
  }

  // ---------------------------------------------------------------------------
  // One flush
  // ---------------------------------------------------------------------------

  /** The items from the `i`-th on that stay: not enrolled before, and the backend does not accept them now. */
  function Failed(items: seq<Item>, enrolled: seq<string>, codes: nat -> int, i: nat): seq<Item>
    requires i <= |items|
    decreases |items| - i
  {
    if i == |items| then []
    else (if items[i].id in enrolled || IsAccepted(codes(i)) then [] else [items[i]])
         + Failed(items, enrolled, codes, i + 1)
  }

  ghost predicate Untouched(st: State, start: State, items: seq<Item>, i: nat) {
    forall k :: i <= k < |items| ==> (items[k].id in st.enrolled <==> items[k].id in start.enrolled)
  }

  ghost predicate AcceptedNow(items: seq<Item>, codes: nat -> int, i: nat, id: string) {
    exists k: nat :: i <= k < |items| && items[k].id == id && IsAccepted(codes(k))
  }

  /** What holds between the tables before and after the rest of a flush. */
  ghost predicate Kept(st: State, end: State, items: seq<Item>, codes: nat -> int, i: nat) {
    (forall id :: id in st.accepted ==> id in end.accepted)
    && (forall id :: id in st.enrolled ==> id in end.enrolled)
    && (forall k :: i <= k < |items| ==> IsPending(end.pending, items[k].id) || items[k].id in end.accepted)
    && (forall id :: id in end.enrolled && id !in st.enrolled ==> AcceptedNow(items, codes, i, id))
    && (forall id :: id in end.accepted && id !in st.accepted ==> AcceptedNow(items, codes, i, id))
    && |st.enrolled| <= |end.enrolled| <= SLOTS
    && (|end.enrolled| < SLOTS ==> forall id :: id in end.accepted ==> id in end.enrolled)
    && (forall id :: id in end.enrolled ==> id in end.accepted)
  }

  lemma {:induction false} RetryFails(st: State, start: State, items: seq<Item>, codes: nat -> int, i: nat)
    requires i <= |items| <= SLOTS && DistinctIds(items) && |st.pending| <= i && Untouched(st, start, items, i)
    ensures Retry(st, items, codes, i).pending == st.pending + Failed(items, start.enrolled, codes, i)
    decreases |items| - i
  {
    if i == |items| {
      assert st.pending + [] == st.pending;
    } else {
      var next := Retried(st, items[i], codes(i));
      RetryFails(next, start, items, codes, i + 1);
      var rest := Failed(items, start.enrolled, codes, i + 1);
      assert (st.pending + [items[i]]) + rest == st.pending + ([items[i]] + rest);
      assert [] + rest == rest;
    }
  }

  lemma KeptOne(st: State, next: State, end: State, items: seq<Item>, codes: nat -> int, i: nat)
    requires i < |items| && Kept(next, end, items, codes, i + 1)
    requires next.enrolled == st.enrolled && next.accepted == st.accepted
    requires items[i].id in st.accepted || items[i] in end.pending
    ensures Kept(st, end, items, codes, i)
  {
    AcceptedSooner(items, codes, i);
  }

  lemma KeptAccepted(st: State, end: State, items: seq<Item>, codes: nat -> int, i: nat)
    requires i < |items| && Kept(Enrolled(st, items[i].id), end, items, codes, i + 1) && IsAccepted(codes(i))
    ensures Kept(st, end, items, codes, i)
  {
    AcceptedSooner(items, codes, i);
    assert AcceptedNow(items, codes, i, items[i].id);
  }

  lemma AcceptedSooner(items: seq<Item>, codes: nat -> int, i: nat)
    ensures forall id :: AcceptedNow(items, codes, i + 1, id) ==> AcceptedNow(items, codes, i, id)
  {
  }

  lemma {:induction false} RetryKeeps(st: State, items: seq<Item>, codes: nat -> int, i: nat)
    requires i <= |items| <= SLOTS && |st.pending| <= i && |st.enrolled| <= SLOTS
    requires forall id :: id in st.enrolled ==> id in st.accepted
    requires |st.enrolled| < SLOTS ==> forall id :: id in st.accepted ==> id in st.enrolled
    ensures Kept(st, Retry(st, items, codes, i), items, codes, i)
    ensures st.pending <= Retry(st, items, codes, i).pending
    decreases |items| - i
  {
    if i < |items| {
      hide Kept;
      var item, end := items[i], Retry(st, items, codes, i);
      RetryKeeps(Retried(st, item, codes(i)), items, codes, i + 1);
      if item.id in st.enrolled {
        KeptOne(st, st, end, items, codes, i);
      } else if IsAccepted(codes(i)) {
        KeptAccepted(st, end, items, codes, i);
      } else {
        assert end.pending[|st.pending|] == item;
        KeptOne(st, st.(pending := st.pending + [item]), end, items, codes, i);
      }
    }
  }

  lemma {:induction false} FailedIs(items: seq<Item>, enrolled: seq<string>, codes: nat -> int, i: nat)
    requires i <= |items| && DistinctIds(items)
    ensures var kept := Failed(items, enrolled, codes, i);
            |kept| <= |items| - i && DistinctIds(kept)
            && forall k :: 0 <= k < |kept| ==>
                 exists j ::
                   i <= j < |items| && kept[k] == items[j] && items[j].id !in enrolled && !IsAccepted(codes(j))
    decreases |items| - i
  {
    if i < |items| {
      FailedIs(items, enrolled, codes, i + 1);
    }
  }

  /** A flush keeps exactly the ids that failed, in their order, and every other one that waited has been accepted. */
  lemma FlushKeepsExactlyTheFailed(st: State, codes: nat -> int)
    requires Inv(st)
    ensures Flush(st, true, codes).pending == Failed(st.pending, st.enrolled, codes, 0)
    ensures forall k :: 0 <= k < |st.pending| ==>
              IsPending(Flush(st, true, codes).pending, st.pending[k].id)
              || st.pending[k].id in Flush(st, true, codes).accepted
  {
    if st.pending != [] {
      var cleared := st.(pending := []);
      RetryFails(cleared, st, st.pending, codes, 0);
      RetryKeeps(cleared, st.pending, codes, 0);
      assert [] + Failed(st.pending, st.enrolled, codes, 0) == Failed(st.pending, st.enrolled, codes, 0);
    }
  }

  /** After a flush nobody is both waiting and in the table of the enrolled. Whoever waits has been accepted before only
      if that was so before the flush, and never as long as the table had room. */
  lemma FlushSeparatesTheTables(st: State, codes: nat -> int)
    requires Inv(st)
    ensures var after := Flush(st, true, codes);
            forall k :: 0 <= k < |after.pending| ==>
              after.pending[k].id !in after.enrolled
              && (after.pending[k].id in after.accepted <==> after.pending[k].id in st.accepted)
              && (|st.enrolled| < SLOTS ==> after.pending[k].id !in after.accepted)
  {
    hide Retry, Failed, IsAccepted;
    if st.pending != [] {
      var cleared := st.(pending := []);
      var after := Flush(st, true, codes);
      FlushKeepsExactlyTheFailed(st, codes);
      FailedIs(st.pending, st.enrolled, codes, 0);
      RetryKeeps(cleared, st.pending, codes, 0);
      forall k | 0 <= k < |after.pending|
        ensures after.pending[k].id !in st.enrolled && !AcceptedNow(st.pending, codes, 0, after.pending[k].id)
      {
        var j :| 0 <= j < |st.pending| && after.pending[k] == st.pending[j]
                 && st.pending[j].id !in st.enrolled && !IsAccepted(codes(j));
      }
    }
  }

  /** With a full table an accepted slave is not recorded: when it says hello again and the backend fails, it waits. */
  lemma FullTableForgetsAnAcceptedSlave(st: State, item: Item)
    requires Inv(st) && |st.enrolled| == SLOTS && item.id in st.accepted && item.id !in st.enrolled
    requires item.id != "" && |item.id| <= ID_LEN && item.token != "" && st.pending == []
    ensures var after := Hello(st, true, true, item, 500);
            Inv(after) && after.pending == [Stored(item.id, item.nodeLabel, item.token)] && item.id in after.accepted
  {
  }

  // ---------------------------------------------------------------------------
  // Whole runs
  // ---------------------------------------------------------------------------

  lemma HelloKeeps(st: State, enabled: bool, password: bool, item: Item, code: int)
    requires Inv(st) && |item.id| <= ID_LEN
    ensures Inv(Hello(st, enabled, password, item, code))
    ensures forall id :: IsPending(st.pending, id) ==> IsPending(Hello(st, enabled, password, item, code).pending, id)
    ensures st.accepted <= Hello(st, enabled, password, item, code).accepted
  {
    var after := Hello(st, enabled, password, item, code);
    forall id | IsPending(st.pending, id)
      ensures IsPending(after.pending, id)
    {
      var i :| 0 <= i < |st.pending| && st.pending[i].id == id;
      assert after.pending[i].id == id;
    }
    assert Fit(item.id, ID_LEN) == item.id;
  }

  lemma FlushKeeps(st: State, password: bool, codes: nat -> int)
    requires Inv(st)
    ensures Inv(Flush(st, password, codes))
    ensures forall id :: IsPending(st.pending, id) ==>
              IsPending(Flush(st, password, codes).pending, id) || id in Flush(st, password, codes).accepted
    ensures st.accepted <= Flush(st, password, codes).accepted
  {
    hide Retry, Failed, AcceptedNow;
    if st.pending != [] && password {
      FlushKeepsExactlyTheFailed(st, codes);
      FailedIs(st.pending, st.enrolled, codes, 0);
      RetryKeeps(st.(pending := []), st.pending, codes, 0);
    }
  }

  lemma {:induction false} RunKeeps(steps: seq<Step>)
    requires ShortIds(steps)
    ensures Inv(Run(State([], [], {}), steps))
    decreases |steps|
  {
    hide Inv, Hello, Flush;
    if steps == [] {
      EmptyIsOk();
    } else {
      RunKeeps(steps[..|steps| - 1]);
      StepKeeps(Run(State([], [], {}), steps[..|steps| - 1]), steps[|steps| - 1]);
    }
  }

  lemma EmptyIsOk()
    ensures Inv(State([], [], {}))
  {
  }

  lemma StepKeeps(st: State, step: Step)
    requires Inv(st) && (step.HelloStep? ==> |step.item.id| <= ID_LEN)
    ensures Inv(Next(st, step)) && st.accepted <= Next(st, step).accepted
    ensures forall id :: IsPending(st.pending, id) ==>
              IsPending(Next(st, step).pending, id) || id in Next(st, step).accepted
  {
    hide Inv, Hello, Flush, IsPending;
    match step
    case HelloStep(enabled, password, item, code) => HelloKeeps(st, enabled, password, item, code);
    case FlushStep(password, codes) => FlushKeeps(st, password, codes);
  }

  /** In any run at most four distinct ids wait, and an id that once waited waits still or has been accepted. */
  lemma {:induction false} NoSlaveIsForgotten(before: seq<Step>, after: seq<Step>, id: string)
    requires ShortIds(before) && ShortIds(after)
    requires IsPending(Run(State([], [], {}), before).pending, id)
    ensures var st := Run(Run(State([], [], {}), before), after);
            Inv(st) && (IsPending(st.pending, id) || id in st.accepted)
    decreases |after|
  {
    hide Inv, Hello, Flush, IsPending;
    if after == [] {
      RunKeeps(before);
    } else {
      NoSlaveIsForgotten(before, after[..|after| - 1], id);
      StepKeeps(Run(Run(State([], [], {}), before), after[..|after| - 1]), after[|after| - 1]);
    }
  }

  /** A slave says hello to a master that has its password; `token` is the slave's transfer token. */
  function HelloOf(id: string, token: string, code: int): Step {
    HelloStep(true, true, Item(id, "", token), code)
  }

  /** From the start: five slaves say hello and are accepted, then the fifth says hello again while the backend fails.
      It waits, although it has been accepted. */
  lemma FifthSlaveWaitsAgain(token: string)
    requires 32 <= |token| <= TOKEN_LEN
    ensures var steps := [HelloOf("1", token, 201), HelloOf("2", token, 201), HelloOf("3", token, 201),
                          HelloOf("4", token, 201), HelloOf("5", token, 201), HelloOf("5", token, 400)];
            ShortIds(steps)
            && Run(State([], [], {}), steps)
               == State([Item("5", "", token)], ["1", "2", "3", "4"], {"1", "2", "3", "4", "5"})
  {
    hide Next, Run;
    var start := State([], [], {});
    NoStep(start);
    var none: seq<Step> := [];
    var one := none + [HelloOf("1", token, 201)];
    var two := one + [HelloOf("2", token, 201)];
    var three := two + [HelloOf("3", token, 201)];
    var four := three + [HelloOf("4", token, 201)];
    var five := four + [HelloOf("5", token, 201)];
    var s1 := RunAccepts(start, none, start, "1", token);
    var s2 := RunAccepts(start, one, s1, "2", token);
    var s3 := RunAccepts(start, two, s2, "3", token);
    var s4 := RunAccepts(start, three, s3, "4", token);
    var s5 := RunAccepts(start, four, s4, "5", token);
    RefusedHello(s5, "5", token);
    RunMore(start, five, s5, HelloOf("5", token, 400));
    assert five + [HelloOf("5", token, 400)]
        == [HelloOf("1", token, 201), HelloOf("2", token, 201), HelloOf("3", token, 201), HelloOf("4", token, 201),
            HelloOf("5", token, 201), HelloOf("5", token, 400)];
  }

  lemma NoStep(st: State)
    ensures Run(st, []) == st
  {
  }

  lemma RunMore(start: State, steps: seq<Step>, st: State, step: Step)
    requires Run(start, steps) == st
    ensures Run(start, steps + [step]) == Next(st, step)
  {
    assert (steps + [step])[..|steps|] == steps;
  }

  lemma RunAccepts(start: State, steps: seq<Step>, st: State, id: string, token: string) returns (after: State)
    requires Run(start, steps) == st && id != "" && token != "" && id !in st.enrolled
    ensures after == Enrolled(st, id) && Run(start, steps + [HelloOf(id, token, 201)]) == after
  {
    hide Next, Run;
    after := Enrolled(st, id);
    AcceptedHello(st, id, token);
    RunMore(start, steps, st, HelloOf(id, token, 201));
  }

  lemma AcceptedHello(st: State, id: string, token: string)
    requires id != "" && token != "" && id !in st.enrolled
    ensures Next(st, HelloOf(id, token, 201)) == Enrolled(st, id)
  {
  }

  lemma RefusedHello(st: State, id: string, token: string)
    requires 0 < |id| <= ID_LEN && 0 < |token| <= TOKEN_LEN && id !in st.enrolled && st.pending == []
    ensures Next(st, HelloOf(id, token, 400)) == st.(pending := [Item(id, "", token)])
  {
    assert Stored(id, "", token) == Item(id, "", token);
  }
}
