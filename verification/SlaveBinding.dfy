/** The master's slave enrollments at Host: what the statuses that slaveEnroll takes for success say about the binding.
    The statuses are those of vps/internal/httpapi/server.go:181-238.
  */
module SlaveBinding {
  import opened Bytes
  import opened HostTables
  import E = Enrollment
  import P = PendingSlaves
  import S = SlaveEnrollment

  /** The tables an enrollment of a slave reads or writes. */
  datatype Host = Host(masters: map<string, Master>, pots: map<nat, string>, slaves: map<string, Slave>)

  /** writeEnrollmentError, for what EnrollSlave returns. */
  function StatusOf(e: E.Error): int {
    match e
    case SlaveRefused(cause) =>
      if cause == S.MasterNotFound || cause == S.InvalidTransfer then 401
      else if cause == S.MasterNotEnrolled then 409
      else 400
    case _ => 400
  }

  const NO_ANSWER: int := -1

  /** What becomes of one request: whether it gets to Host, the uuid drawn there for a new pot, how the transaction
      ends, and whether the answer gets back. */
  datatype Attempt = Attempt(reached: bool, pot: nat, ending: E.Ending, heard: bool)

  /** The POST of slaveEnroll for master `m`: Host's tables afterwards, and the status the master sees. */
  function Post(hash: E.Hash, host: Host, m: string, item: P.Item, x: Attempt): (Host, int) {
    if !x.reached then (host, NO_ANSWER)
    else
      var (pots, slaves, r) :=
        E.SlaveEnrolled(hash, host.masters, host.pots, host.slaves, item.id, m, item.nodeLabel, item.token, x.pot,
                        x.ending);
      (Host(host.masters, pots, slaves),
       if !x.heard then NO_ANSWER else match r case Ok(_) => 201 case Err(e) => StatusOf(e))
  }

  predicate BoundTo(host: Host, s: string, m: string) {
    s in host.slaves && host.slaves[s].master == m
  }

  predicate Valid(item: P.Item, m: string) {
    E.ValidId(item.id) && E.ValidId(m) && E.ValidLabel(item.nodeLabel) && E.ValidSecret(item.token)
  }

  predicate IsEnrolled(host: Host, m: string) {
    m in host.masters && host.masters[m].enrolled
  }

  /** Host can bind the slave: a new one with a pot of its own, a known one by its token. */
  predicate Binds(hash: E.Hash, host: Host, m: string, item: P.Item, pot: nat) {
    Valid(item, m) && IsEnrolled(host, m) && !host.masters[m].disabled
    && if item.id in host.slaves then host.slaves[item.id].transferHash == hash(item.token) else pot !in host.pots
  }

  /** When each of the two statuses comes, and what it says: 201 binds; 409 says that the master is not enrolled, and
      binds nothing. The slave is bound afterwards if and only if it was before or Host could bind it and did. */
  lemma AnswersMean(hash: E.Hash, host: Host, m: string, item: P.Item, x: Attempt)
    ensures var (after, code) := Post(hash, host, m, item, x);
            && (code == 201 <==> x.reached && x.heard && Binds(hash, host, m, item, x.pot) && x.ending == E.Committed)
            && (code == 409 <==> x.reached && x.heard && Valid(item, m)
                                 && m in host.masters && !host.masters[m].disabled && !host.masters[m].enrolled)
            && (code == 401 <==> x.reached && x.heard && Valid(item, m)
                                 && (m !in host.masters || host.masters[m].disabled
                                     || (host.masters[m].enrolled && item.id in host.slaves
                                         && host.slaves[item.id].transferHash != hash(item.token))))
            && (code < 0 <==> !x.reached || !x.heard) && (code > 0 ==> code in [201, 400, 401, 409]) && code != 0
            && (code == 201 ==> BoundTo(after, item.id, m))
            && (code == 409 ==> after == host)
            && (BoundTo(after, item.id, m)
                <==> BoundTo(host, item.id, m)
                     || (x.reached && Binds(hash, host, m, item, x.pot) && x.ending != E.RolledBack))
  {
    hide E.ValidId, E.ValidLabel, E.ValidSecret;
  }

  /** Host hears of a hello only from an enabled master with a password, for a slave with id and token it does not know.
      */
  lemma SilentHello(hash: E.Hash, m: string, w: World, enabled: bool, password: bool, item: P.Item, x: Attempt)
    requires !enabled || !password || item.id == "" || item.token == "" || item.id in w.st.enrolled
    ensures Next(hash, m, w, Hello(enabled, password, item, x)).host == w.host
  {
  }

  /** Of the other slaves and the masters nothing changes. */
  lemma OthersStay(hash: E.Hash, host: Host, m: string, item: P.Item, x: Attempt)
    ensures var after := Post(hash, host, m, item, x).0;
            after.masters == host.masters
            && forall s :: s != item.id ==> (BoundTo(after, s, m) <==> BoundTo(host, s, m))
  {
    hide E.ValidId, E.ValidLabel, E.ValidSecret;
  }

  // ---------------------------------------------------------------------------
  // The master and Host together
  // ---------------------------------------------------------------------------

  datatype World = World(st: P.State, host: Host)

  datatype Event =
    | Hello(enabled: bool, password: bool, item: P.Item, x: Attempt)
    | Flush(password: bool, xs: nat -> Attempt)
    | Elsewhere(host: Host)   // whatever other calls make of Host's tables

  predicate Asks(w: World, enabled: bool, password: bool, item: P.Item) {
    enabled && password && item.id != "" && item.token != "" && item.id !in w.st.enrolled
  }

  function Retried(hash: E.Hash, m: string, w: World, item: P.Item, x: Attempt): World {
    if item.id in w.st.enrolled then w
    else
      var (host, code) := Post(hash, w.host, m, item, x);
      World(P.Retried(w.st, item, code), host)
  }

  function Retry(hash: E.Hash, m: string, w: World, items: seq<P.Item>, xs: nat -> Attempt, i: nat): World
    requires i <= |items|
    decreases |items| - i
  {
    if i == |items| then w else Retry(hash, m, Retried(hash, m, w, items[i], xs(i)), items, xs, i + 1)
  }

  function Next(hash: E.Hash, m: string, w: World, e: Event): World {
    match e
    case Hello(enabled, password, item, x) =>
      if !Asks(w, enabled, password, item) then World(P.Hello(w.st, enabled, password, item, NO_ANSWER), w.host)
      else
        var (host, code) := Post(hash, w.host, m, item, x);
        World(P.Hello(w.st, enabled, password, item, code), host)
    case Flush(password, xs) =>
      if w.st.pending == [] || !password then w
      else Retry(hash, m, World(w.st.(pending := []), w.host), w.st.pending, xs, 0)
    case Elsewhere(host) => World(w.st, host)
  }

  function Run(hash: E.Hash, m: string, w: World, es: seq<Event>): World {
    if es == [] then w else Next(hash, m, Run(hash, m, w, es[..|es| - 1]), es[|es| - 1])
  }

  // ---------------------------------------------------------------------------
  // The master's part is a run of `PendingSlaves`
  // ---------------------------------------------------------------------------

  lemma {:induction false} RetryLooksAt(st: P.State, items: seq<P.Item>, codes: nat -> int, other: nat -> int, i: nat)
    requires i <= |items| && forall j: nat :: i <= j ==> codes(j) == other(j)
    ensures P.Retry(st, items, codes, i) == P.Retry(st, items, other, i)
    decreases |items| - i
  {
    if i < |items| {
      RetryLooksAt(P.Retried(st, items[i], codes(i)), items, codes, other, i + 1);
    }
  }

  lemma {:induction false} RetryIsRetry(hash: E.Hash, m: string, w: World, items: seq<P.Item>, xs: nat -> Attempt,
                                        i: nat)
    returns (codes: nat -> int)
    requires i <= |items|
    ensures Retry(hash, m, w, items, xs, i).st == P.Retry(w.st, items, codes, i)
    decreases |items| - i
  {
    hide Post;
    if i == |items| {
      codes := (j: nat) => NO_ANSWER;
    } else {
      var code := Post(hash, w.host, m, items[i], xs(i)).1;
      var rest := RetryIsRetry(hash, m, Retried(hash, m, w, items[i], xs(i)), items, xs, i + 1);
      codes := (j: nat) => if j == i then code else rest(j);
      RetryLooksAt(P.Retried(w.st, items[i], code), items, codes, rest, i + 1);
    }
  }

  /** Ids come out of a field of eight characters. */
  ghost predicate Short(es: seq<Event>) {
    forall i :: 0 <= i < |es| && es[i].Hello? ==> |es[i].item.id| <= P.ID_LEN
  }

  /** Every event is a step of the master with statuses that Host gave it, or none. */
  lemma StepIsAStep(hash: E.Hash, m: string, w: World, e: Event) returns (steps: seq<P.Step>)
    ensures |steps| <= 1 && (Short([e]) ==> P.ShortIds(steps))
    ensures Next(hash, m, w, e).st == if steps == [] then w.st else P.Next(w.st, steps[0])
  {
    hide Post, P.Retry, Retry;
    assert e == [e][0];
    match e
    case Hello(enabled, password, item, x) =>
      var code := if Asks(w, enabled, password, item) then Post(hash, w.host, m, item, x).1 else NO_ANSWER;
      steps := [P.HelloStep(enabled, password, item, code)];
    case Flush(password, xs) =>
      if w.st.pending == [] || !password {
        steps := [];
      } else {
        var codes := RetryIsRetry(hash, m, World(w.st.(pending := []), w.host), w.st.pending, xs, 0);
        steps := [P.FlushStep(password, codes)];
      }
    case Elsewhere(_) => steps := [];
  }

  /** What is proved of every run of the master holds of its runs against Host. */
  lemma {:induction false} RunIsARun(hash: E.Hash, m: string, w: World, es: seq<Event>) returns (steps: seq<P.Step>)
    ensures Run(hash, m, w, es).st == P.Run(w.st, steps) && (Short(es) ==> P.ShortIds(steps))
    decreases |es|
  {
    hide Next, P.Next;
    if es == [] {
      steps := [];
    } else {
      var before := RunIsARun(hash, m, w, es[..|es| - 1]);
      var last := StepIsAStep(hash, m, Run(hash, m, w, es[..|es| - 1]), es[|es| - 1]);
      steps := before + last;
      assert last != [] ==> steps[..|steps| - 1] == before && steps[|steps| - 1] == last[0];
      assert last == [] ==> steps == before;
    }
  }

  // ---------------------------------------------------------------------------
  // An accepted slave is bound, if the master is enrolled
  // ---------------------------------------------------------------------------

  /** Whoever the backend accepted is bound to the master. */
  ghost predicate Served(w: World, m: string) {
    forall id :: id in w.st.accepted ==> BoundTo(w.host, id, m)
  }

  /** Other calls move no slave away from the master and leave it enrolled; they may disable it. */
  ghost predicate Calm(before: Host, after: Host, m: string) {
    IsEnrolled(after, m) && forall s :: BoundTo(before, s, m) ==> BoundTo(after, s, m)
  }

  ghost predicate CalmRun(hash: E.Hash, m: string, w: World, es: seq<Event>) {
    es == []
    || (var before := Run(hash, m, w, es[..|es| - 1]);
        var e := es[|es| - 1];
        CalmRun(hash, m, w, es[..|es| - 1]) && (e.Elsewhere? ==> Calm(before.host, e.host, m)))
  }

  /** After an attempt for an enrolled master. */
  lemma AttemptServes(hash: E.Hash, m: string, w: World, item: P.Item, x: Attempt)
    requires Served(w, m) && IsEnrolled(w.host, m)
    ensures var (host, code) := Post(hash, w.host, m, item, x);
            IsEnrolled(host, m) && (P.IsAccepted(code) ==> BoundTo(host, item.id, m))
            && forall id :: id in w.st.accepted ==> BoundTo(host, id, m)
  {
    hide Post, Binds, Valid;
    AnswersMean(hash, w.host, m, item, x);
    OthersStay(hash, w.host, m, item, x);
  }

  lemma {:induction false} RetryServes(hash: E.Hash, m: string, w: World, items: seq<P.Item>, xs: nat -> Attempt,
                                       i: nat)
    requires i <= |items| && Served(w, m) && IsEnrolled(w.host, m)
    ensures var end := Retry(hash, m, w, items, xs, i); Served(end, m) && IsEnrolled(end.host, m)
    decreases |items| - i
  {
    hide Post, BoundTo, IsEnrolled;
    if i < |items| {
      AttemptServes(hash, m, w, items[i], xs(i));
      RetryServes(hash, m, Retried(hash, m, w, items[i], xs(i)), items, xs, i + 1);
    }
  }

  lemma StepServes(hash: E.Hash, m: string, w: World, e: Event)
    requires Served(w, m) && IsEnrolled(w.host, m) && (e.Elsewhere? ==> Calm(w.host, e.host, m))
    ensures Served(Next(hash, m, w, e), m) && IsEnrolled(Next(hash, m, w, e).host, m)
  {
    hide Post, BoundTo, IsEnrolled, Retry;
    match e
    case Hello(enabled, password, item, x) => AttemptServes(hash, m, w, item, x);
    case Flush(password, xs) =>
      if w.st.pending != [] && password {
        RetryServes(hash, m, World(w.st.(pending := []), w.host), w.st.pending, xs, 0);
      }
    case Elsewhere(_) =>
  }

  /** In every run at an enrolled master, in which nobody else moves its slaves away, every slave that slaveEnroll
      accepted is bound to it: whatever is lost on the way, whatever fails at Host, and however often the master is
      disabled. */
  lemma {:induction false} AcceptedAreBound(hash: E.Hash, m: string, w: World, es: seq<Event>)
    requires Served(w, m) && IsEnrolled(w.host, m) && CalmRun(hash, m, w, es)
    ensures var end := Run(hash, m, w, es); Served(end, m) && IsEnrolled(end.host, m)
    decreases |es|
  {
    hide Next, Served, IsEnrolled, Calm;
    if es != [] {
      AcceptedAreBound(hash, m, w, es[..|es| - 1]);
      StepServes(hash, m, Run(hash, m, w, es[..|es| - 1]), es[|es| - 1]);
    }
  }

  // ---------------------------------------------------------------------------
  // A slave accepted for a master that is not enrolled
  // ---------------------------------------------------------------------------

  /** Recorded by the master, not bound at Host. */
  ghost predicate Stranded(w: World, id: string, m: string) {
    id in w.st.enrolled && !BoundTo(w.host, id, m)
  }

  lemma {:induction false} RetryStrands(hash: E.Hash, m: string, w: World, items: seq<P.Item>, xs: nat -> Attempt,
                                        i: nat,
                                        id: string)
    requires i <= |items| && Stranded(w, id, m)
    ensures Stranded(Retry(hash, m, w, items, xs, i), id, m)
    decreases |items| - i
  {
    hide Post, BoundTo;
    if i < |items| {
      OthersStay(hash, w.host, m, items[i], xs(i));
      RetryStrands(hash, m, Retried(hash, m, w, items[i], xs(i)), items, xs, i + 1, id);
    }
  }

  lemma StepStrands(hash: E.Hash, m: string, w: World, e: Event, id: string)
    requires Stranded(w, id, m) && (e.Elsewhere? ==> !BoundTo(e.host, id, m))
    ensures Stranded(Next(hash, m, w, e), id, m)
  {
    hide Post, BoundTo, Retry;
    match e
    case Hello(enabled, password, item, x) => OthersStay(hash, w.host, m, item, x);
    case Flush(password, xs) =>
      if w.st.pending != [] && password {
        RetryStrands(hash, m, World(w.st.(pending := []), w.host), w.st.pending, xs, 0, id);
      }
    case Elsewhere(_) =>
  }

  /** The master never asks again for a slave it has recorded: unless somebody else binds it, it is never bound. */
  lemma {:induction false} RecordedIsNotRetried(hash: E.Hash, m: string, w: World, es: seq<Event>, id: string)
    requires Stranded(w, id, m) && forall k :: 0 <= k < |es| && es[k].Elsewhere? ==> !BoundTo(es[k].host, id, m)
    ensures Stranded(Run(hash, m, w, es), id, m)
    decreases |es|
  {
    hide Next, Stranded, BoundTo;
    if es != [] {
      RecordedIsNotRetried(hash, m, w, es[..|es| - 1], id);
      StepStrands(hash, m, Run(hash, m, w, es[..|es| - 1]), es[|es| - 1], id);
    }
  }

  /** A master that has a password but is not enrolled at Host: its first hello from a slave is answered 409, the slave
      is recorded, and is not bound by anything the master does later, even once the master is enrolled. */
  lemma NotEnrolledStrandsASlave(hash: E.Hash, m: string, host: Host, item: P.Item, x: Attempt, later: seq<Event>)
    requires Valid(item, m) && m in host.masters && !host.masters[m].disabled && !host.masters[m].enrolled
    requires !BoundTo(host, item.id, m) && x.reached && x.heard
    requires forall k :: 0 <= k < |later| && later[k].Elsewhere? ==> !BoundTo(later[k].host, item.id, m)
    ensures var first := Next(hash, m, World(P.State([], [], {}), host), Hello(true, true, item, x));
            Post(hash, host, m, item, x).1 == 409 && Stranded(first, item.id, m)
            && Stranded(Run(hash, m, first, later), item.id, m)
  {
    hide Run, E.ValidLabel;
    AnswersMean(hash, host, m, item, x);
    NotBlank(item.token);
    RecordedIsNotRetried(hash, m, Next(hash, m, World(P.State([], [], {}), host), Hello(true, true, item, x)), later,
                         item.id);
  }

  lemma NotBlank(s: string)
    requires E.ValidSecret(s)
    ensures s != ""
  {
  }

  // ---------------------------------------------------------------------------
  // A bound slave that waits
  // ---------------------------------------------------------------------------

  function HelloOf(id: string, token: string, pot: nat, ending: E.Ending): Event {
    Hello(true, true, P.Item(id, "", token), Attempt(true, pot, ending, true))
  }

  /** Host with one more slave and its pot. */
  function WithSlave(hash: E.Hash, host: Host, m: string, id: string, token: string, pot: nat): Host {
    Host(host.masters, host.pots[pot := ""], host.slaves[id := Slave(m, pot, "", hash(token), false)])
  }

  predicate TokenOk(token: string) {
    E.ValidSecret(token) && |token| <= P.TOKEN_LEN
  }

  lemma NewSlaveIsServed(hash: E.Hash, m: string, w: World, id: string, token: string, pot: nat)
    requires E.ValidId(id) && E.ValidId(m) && TokenOk(token) && IsEnrolled(w.host, m) && !w.host.masters[m].disabled
    requires id !in w.host.slaves && id !in w.st.enrolled && pot !in w.host.pots
    ensures Next(hash, m, w, HelloOf(id, token, pot, E.Committed))
            == World(P.Enrolled(w.st, id), WithSlave(hash, w.host, m, id, token, pot))
  {
    NotBlank(token);
  }

  lemma FailedHelloWaits(hash: E.Hash, m: string, w: World, id: string, token: string, pot: nat)
    requires E.ValidId(id) && |id| <= P.ID_LEN && E.ValidId(m) && TokenOk(token)
    requires IsEnrolled(w.host, m) && !w.host.masters[m].disabled && BoundTo(w.host, id, m)
    requires w.host.slaves[id].transferHash == hash(token) && id !in w.st.enrolled && w.st.pending == []
    ensures Next(hash, m, w, HelloOf(id, token, pot, E.RolledBack))
            == World(w.st.(pending := [P.Item(id, "", token)]), w.host)
  {
    NotBlank(token);
    assert P.Stored(id, "", token) == P.Item(id, "", token);
  }

  lemma RunMore(hash: E.Hash, m: string, w: World, es: seq<Event>, e: Event)
    ensures Run(hash, m, w, es + [e]) == Next(hash, m, Run(hash, m, w, es), e)
  {
    assert (es + [e])[..|es|] == es;
  }

  const IDS: seq<string> := ["1", "2", "3", "4", "5"]

  /** The first `k` of five slaves say hello, one after the other, and Host commits. */
  function Hellos(token: string, k: nat): seq<Event>
    requires k <= 5
  {
    if k == 0 then [] else Hellos(token, k - 1) + [HelloOf(IDS[k - 1], token, k, E.Committed)]
  }

  /** Exactly the first `k` slaves are bound, and the table has recorded them as far as it has room. */
  ghost predicate FirstServed(hash: E.Hash, m: string, token: string, w: World, k: nat)
    requires k <= 5
  {
    w.st.pending == [] && w.st.enrolled == IDS[..Min(k, P.SLOTS)]
    && IsEnrolled(w.host, m) && !w.host.masters[m].disabled
    && (forall i :: 0 <= i < k ==> BoundTo(w.host, IDS[i], m) && w.host.slaves[IDS[i]].transferHash == hash(token))
    && (forall i :: k <= i < 5 ==> IDS[i] !in w.host.slaves)
    && (forall pot :: pot in w.host.pots ==> pot <= k || pot > 5)
  }

  lemma IdsDiffer(i: nat, j: nat)
    requires i < 5 && j < 5
    ensures IDS[i] == IDS[j] <==> i == j
    ensures E.ValidId(IDS[i]) && |IDS[i]| == 1
  {
    assert forall k :: 0 <= k < 5 ==> |IDS[k]| == 1 && IDS[k][0] == "12345"[k];
  }

  lemma NextServed(hash: E.Hash, m: string, token: string, w: World, k: nat)
    requires k < 5 && E.ValidId(m) && TokenOk(token) && FirstServed(hash, m, token, w, k)
    ensures FirstServed(hash, m, token, Next(hash, m, w, HelloOf(IDS[k], token, k + 1, E.Committed)), k + 1)
  {
    hide Next, TokenOk, E.ValidId;
    forall i: nat | i < 5
      ensures IDS[i] == IDS[k] <==> i == k
    {
      IdsDiffer(i, k);
    }
    IdsDiffer(k, k);
    NewSlaveIsServed(hash, m, w, IDS[k], token, k + 1);
  }

  lemma {:induction false} HellosServe(hash: E.Hash, m: string, token: string, w: World, k: nat)
    requires k <= 5 && E.ValidId(m) && TokenOk(token) && FirstServed(hash, m, token, w, 0)
    ensures FirstServed(hash, m, token, Run(hash, m, w, Hellos(token, k)), k)
  {
    hide Next, TokenOk, E.ValidId, FirstServed;
    if k > 0 {
      HellosServe(hash, m, token, w, k - 1);
      NextServed(hash, m, token, Run(hash, m, w, Hellos(token, k - 1)), k - 1);
      RunMore(hash, m, w, Hellos(token, k - 1), HelloOf(IDS[k - 1], token, k, E.Committed));
    }
  }

  /** From the start, at any Host that has the master enrolled and knows none of the slaves: five slaves say hello and
      are bound; the fifth says hello again while Host's transaction fails, and waits although it is bound. */
  lemma FifthSlaveIsBoundAndWaits(hash: E.Hash, m: string, host: Host, token: string)
    requires E.ValidId(m) && TokenOk(token) && IsEnrolled(host, m) && !host.masters[m].disabled
    requires forall i :: 0 <= i < 5 ==> IDS[i] !in host.slaves
    requires forall pot :: pot in host.pots ==> pot > 5
    ensures var start := World(P.State([], [], {}), host);
            var end := Run(hash, m, start, Hellos(token, 5) + [HelloOf("5", token, 6, E.RolledBack)]);
            && end.st.pending == [P.Item("5", "", token)] && end.st.enrolled == ["1", "2", "3", "4"]
            && forall i :: 0 <= i < 5 ==> BoundTo(end.host, IDS[i], m)
  {
    hide Run, Next, Hellos, TokenOk, E.ValidId;
    var start := World(P.State([], [], {}), host);
    HellosServe(hash, m, token, start, 5);
    var w := Run(hash, m, start, Hellos(token, 5));
    assert BoundTo(w.host, IDS[4], m);
    IdsDiffer(4, 4);
    FailedHelloWaits(hash, m, w, "5", token, 6);
    RunMore(hash, m, start, Hellos(token, 5), HelloOf("5", token, 6, E.RolledBack));
  }
}
