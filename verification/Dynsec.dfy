/** vps/internal/dynsec/manager.go: provisioning one master on the broker, command by command, where any command
    may be lost before or after the broker carried it out, and its answer before or after it arrived.
  */
module Dynsec {
  import opened Bytes
  import opened DynsecChannel

  // ---------------------------------------------------------------------------
  // The Dynamic Security state of the broker
  // ---------------------------------------------------------------------------

  datatype AclKey = AclKey(kind: string, topic: string)

  datatype Acl = Acl(allow: bool, priority: int)

  datatype Client = Client(password: string, clientId: string, roles: map<string, int>)

  datatype Broker = Broker(clients: map<string, Client>, roles: map<string, map<AclKey, Acl>>)

  datatype Command =
    | CreateRole(role: string)
    | AddRoleAcl(role: string, key: AclKey, acl: Acl)
    | CreateClient(user: string, client: Client)
    | ModifyClient(user: string, client: Client)

  datatype Reply = Done | AlreadyExists | Refused

  /** How the plugin answers a command. */
  function Execute(b: Broker, c: Command): (Broker, Reply) {
    match c
    case CreateRole(role) =>
      if role in b.roles then (b, AlreadyExists) else (b.(roles := b.roles[role := map[]]), Done)
    case AddRoleAcl(role, key, acl) =>
      if role !in b.roles then (b, Refused)
      else if key in b.roles[role] then (b, AlreadyExists)
      else (b.(roles := b.roles[role := b.roles[role][key := acl]]), Done)
    case CreateClient(user, client) =>
      if user in b.clients then (b, AlreadyExists)
      else if !(client.roles.Keys <= b.roles.Keys) then (b, Refused)
      else (b.(clients := b.clients[user := client]), Done)
    case ModifyClient(user, client) =>
      if user !in b.clients || !(client.roles.Keys <= b.roles.Keys) then (b, Refused)
      else (b.(clients := b.clients[user := client]), Done)
  }

  // ---------------------------------------------------------------------------
  // What the broker lets a client do
  // ---------------------------------------------------------------------------

  /** A connect is accepted: the user's own password, from the client id the user is tied to. */
  predicate LogsIn(b: Broker, user: string, clientId: string, password: string) {
    user in b.clients && b.clients[user].password == password && b.clients[user].clientId == clientId
  }

  /** Section 4.7 of MQTT 3.1.1: `+` stands for one level, `#` for all that follow. */
  predicate Matches(filter: string, topic: string)
    decreases |filter|
  {
    if filter == "" then topic == ""
    else if filter == "#" || (filter == "/#" && topic == "") then true
    else if filter[0] == '+' then
      exists k :: 0 <= k <= |topic| && '/' !in topic[..k] && Matches(filter[1..], topic[k..])
    else topic != "" && topic[0] == filter[0] && Matches(filter[1..], topic[1..])
  }

  predicate HasRule(b: Broker, user: string, kind: string, topic: string, allow: bool) {
    user in b.clients
    && exists role, key ::
         role in b.clients[user].roles && role in b.roles && key in b.roles[role]
         && key.kind == kind && Matches(key.topic, topic) && b.roles[role][key].allow == allow
  }

  /** A client may send to a topic that a role of its allows and none forbids; everything else is denied. */
  predicate MayPublish(b: Broker, user: string, topic: string) {
    HasRule(b, user, "publishClientSend", topic, true) && !HasRule(b, user, "publishClientSend", topic, false)
  }

  predicate Plain(s: string) {
    '+' !in s && '#' !in s
  }

  lemma {:induction false} PlainMatches(filter: string, topic: string)
    requires Plain(filter)
    ensures Matches(filter, topic) <==> topic == filter
    decreases |filter|
  {
    if filter != "" {
      assert filter[0] in filter && forall c :: c in filter[1..] ==> c in filter;
      assert filter != "#" && filter != "/#" by { assert "/#"[1] == '#'; }
      if topic != "" {
        PlainMatches(filter[1..], topic[1..]);
        assert topic == [topic[0]] + topic[1..] && filter == [filter[0]] + filter[1..];
      }
    }
  }

  /** The password of `m` logs in from the client id `m`, and no other does; and it may publish its telemetry, and
      nothing else. */
  ghost predicate InForce(b: Broker, m: string, password: string) {
    (forall c: string, p: string :: LogsIn(b, m, c, p) <==> c == m && p == password)
    && (Plain(m) ==> forall t: string :: MayPublish(b, m, t) <==> t == "farm/v1/masters/" + m + "/telemetry")
  }

  // ---------------------------------------------------------------------------
  // The commands for one master
  // ---------------------------------------------------------------------------

  function RoleName(m: string): string {
    "host-master-telemetry-" + m
  }

  lemma RoleNamesDiffer(m: string, n: string)
    requires RoleName(m) == RoleName(n)
    ensures m == n
  {
    var prefix := "host-master-telemetry-";
    assert RoleName(m)[|prefix|..] == m && RoleName(n)[|prefix|..] == n;
  }

  function OwnKey(m: string): AclKey {
    AclKey("publishClientSend", "farm/v1/masters/" + m + "/telemetry")
  }

  const OWN_ACL := Acl(true, 10)

  function MasterClient(m: string, password: string): Client {
    Client(password, m, map[RoleName(m) := 10])
  }

  /** The commands ProvisionMaster can send, in order; the last only when the client exists. */
  function Script(m: string, password: string): seq<Command> {
    [CreateRole(RoleName(m)), AddRoleAcl(RoleName(m), OwnKey(m), OWN_ACL),
     CreateClient(m, MasterClient(m, password)), ModifyClient(m, MasterClient(m, password))]
  }

  /** The commands of manager.go, word by word. */
  lemma ScriptIs(m: string, password: string)
    ensures var role := "host-master-telemetry-" + m;
            Script(m, password)
            == [CreateRole(role),
                AddRoleAcl(role, AclKey("publishClientSend", "farm/v1/masters/" + m + "/telemetry"), Acl(true, 10)),
                CreateClient(m, Client(password, m, map[role := 10])),
                ModifyClient(m, Client(password, m, map[role := 10]))]
  {
  }

  /** What every run of ProvisionMaster leaves of master roles: nothing, an empty role, or the master's own ACL. */
  ghost predicate Clean(b: Broker) {
    forall m: string :: RoleName(m) in b.roles ==>
        b.roles[RoleName(m)] == map[] || b.roles[RoleName(m)] == map[OwnKey(m) := OWN_ACL]
  }

  /** The credentials of `m` are in force: exactly this client, and a role with exactly its own topic. */
  ghost predicate Provisioned(b: Broker, m: string, password: string) {
    m in b.clients && b.clients[m] == MasterClient(m, password)
    && RoleName(m) in b.roles && b.roles[RoleName(m)] == map[OwnKey(m) := OWN_ACL]
  }

  lemma ProvisionedIsInForce(b: Broker, m: string, password: string)
    requires Provisioned(b, m, password)
    ensures InForce(b, m, password)
  {
    hide RoleName, Matches;
    if Plain(m) {
      forall t: string
        ensures MayPublish(b, m, t) <==> t == "farm/v1/masters/" + m + "/telemetry"
      {
        OwnTopicOnly(b, m, password, t);
      }
    }
  }

  lemma OwnTopicOnly(b: Broker, m: string, password: string, t: string)
    requires Provisioned(b, m, password) && Plain(m)
    ensures MayPublish(b, m, t) <==> t == "farm/v1/masters/" + m + "/telemetry"
  {
    hide RoleName, Matches;
    var own := "farm/v1/masters/" + m + "/telemetry";
    PlainTopic(m);
    PlainMatches(own, t);
    assert b.clients[m].roles.Keys == {RoleName(m)};
    assert b.roles[RoleName(m)].Keys == {AclKey("publishClientSend", own)};
    if t == own {
      assert RoleName(m) in b.clients[m].roles && AclKey("publishClientSend", own) in b.roles[RoleName(m)];
    }
  }

  lemma PlainTopic(m: string)
    requires Plain(m)
    ensures Plain("farm/v1/masters/" + m + "/telemetry")
  {
    assert Plain("farm/v1/masters/") && Plain("/telemetry");
  }

  /** The two states differ at most in the client and the role of `m`. */
  ghost predicate OthersUntouched(b: Broker, c: Broker, m: string) {
    (forall u: string :: u != m ==>
     (u in b.clients <==> u in c.clients) && (u in b.clients ==> b.clients[u] == c.clients[u]))
    && (forall r: string :: r != RoleName(m) ==>
        (r in b.roles <==> r in c.roles) && (r in b.roles ==> b.roles[r] == c.roles[r]))
  }

  /** One scripted command keeps the master roles clean and touches no other master. */
  lemma CommandKeeps(b: Broker, m: string, password: string, k: nat)
    requires Clean(b) && k < 4
    ensures Clean(Execute(b, Script(m, password)[k]).0)
    ensures OthersUntouched(b, Execute(b, Script(m, password)[k]).0, m)
  {
    hide Clean, OthersUntouched, MasterClient;
    SameUntouched(b, m);
    if k == 0 {
      RoleKeeps(b, m, map[]);
    } else if k == 1 {
      if RoleName(m) in b.roles && OwnKey(m) !in b.roles[RoleName(m)] {
        AclIsOwn(b, m);
        RoleKeeps(b, m, map[OwnKey(m) := OWN_ACL]);
      }
    } else {
      ClientKeeps(b, m, MasterClient(m, password));
    }
  }

  lemma RoleKeeps(b: Broker, m: string, acls: map<AclKey, Acl>)
    requires Clean(b) && (acls == map[] || acls == map[OwnKey(m) := OWN_ACL])
    ensures Clean(b.(roles := b.roles[RoleName(m) := acls]))
    ensures OthersUntouched(b, b.(roles := b.roles[RoleName(m) := acls]), m)
  {
    hide OwnKey;
    var roles := b.roles[RoleName(m) := acls];
    forall n: string | RoleName(n) in roles
      ensures roles[RoleName(n)] == map[] || roles[RoleName(n)] == map[OwnKey(n) := OWN_ACL]
    {
      if RoleName(n) == RoleName(m) {
        RoleNamesDiffer(m, n);
      }
    }
  }

  lemma ClientKeeps(b: Broker, m: string, client: Client)
    requires Clean(b)
    ensures Clean(b.(clients := b.clients[m := client])) && OthersUntouched(b, b.(clients := b.clients[m := client]), m)
  {
    hide OwnKey, RoleName;
  }

  /** Adding the rule to a role of a clean state leaves exactly this rule. */
  lemma AclIsOwn(b: Broker, m: string)
    requires Clean(b)
    ensures var (after, reply) := Execute(b, AddRoleAcl(RoleName(m), OwnKey(m), OWN_ACL));
            RoleName(m) in b.roles ==>
              !reply.Refused? && RoleName(m) in after.roles && after.roles[RoleName(m)] == map[OwnKey(m) := OWN_ACL]
  {
  }

  lemma SameUntouched(b: Broker, m: string)
    ensures OthersUntouched(b, b, m)
  {
  }

  lemma OthersStayProvisioned(b: Broker, c: Broker, m: string, n: string, password: string)
    requires OthersUntouched(b, c, m) && m != n && Provisioned(b, n, password)
    ensures Provisioned(c, n, password)
  {
    if RoleName(m) == RoleName(n) {
      RoleNamesDiffer(m, n);
    }
  }

  // ---------------------------------------------------------------------------
  // The answer to a command
  // ---------------------------------------------------------------------------

  /** The error text of a response item. */
  function ErrorText(reply: Reply): string {
    match reply
    case Done => ""
    case AlreadyExists => "already exists"
    case Refused => "refused"
  }

  function Lower(s: string): string {
    seq(|s|, i requires 0 <= i < |s| => if 'A' <= s[i] <= 'Z' then s[i] - 'A' + 'a' else s[i])
  }

  predicate Contains(s: string, t: string) {
    exists i :: 0 <= i <= |s| && t <= s[i..]
  }

  /** alreadyExists. */
  function ReplyOf(error: string): Reply {
    if Contains(Lower(error), "already exists") then AlreadyExists else Refused
  }

  /** An error that says so, in letters of either case, is taken for an earlier success. */
  lemma AnyCaseIsRead(error: string, i: nat)
    requires i + 14 <= |error|
    requires forall k :: 0 <= k < 14 ==> error[i + k] == "already exists"[k] || error[i + k] == "ALREADY EXISTS"[k]
    ensures ReplyOf(error) == AlreadyExists
  {
    var t, u := "already exists", "ALREADY EXISTS";
    assert Lower(u) == t && Lower(t) == t;
    forall k | 0 <= k < 14
      ensures Lower(error)[i..][k] == t[k]
    {
      assert Lower(u)[k] == t[k] && Lower(t)[k] == t[k];
    }
    assert t == Lower(error)[i..][..14];
    assert t <= Lower(error)[i..];
  }

  lemma TextsAreRead()
    ensures ReplyOf(ErrorText(AlreadyExists)) == AlreadyExists && ReplyOf(ErrorText(Refused)) == Refused
  {
    var t := "already exists";
    assert Lower(t) == t;
    assert t <= t[0..];
    assert |Lower("refused")| < |t|;
  }

  /** What can happen while a call waits: a response to other commands, the answer to its own among other items, a look
      into the channel, the deadline. */
  datatype Arrival = Foreign(response: Response) | Own(before: Response, after: Response) | Look | Deadline

  /** One command and what becomes of it: its fresh id, whether the publish reports success, whether the broker carries
      the command out, and what happens until the deadline. */
  datatype Exchange = Exchange(correlation: string, published: bool, delivered: bool, arrivals: seq<Arrival>)

  predicate AnswerArrives(x: Exchange) {
    exists k :: 0 <= k < |x.arrivals| && x.arrivals[k].Own?
  }

  function EventOf(a: Arrival, correlation: string, reply: Reply): Event {
    match a
    case Foreign(r) => Arrives(r)
    case Own(before, after) => Arrives(before + [Item(correlation, ErrorText(reply))] + after)
    case Look => Receives
    case Deadline => ContextDone
  }

  function EventsOf(x: Exchange, reply: Reply): seq<Event> {
    seq(|x.arrivals|, i requires 0 <= i < |x.arrivals| => EventOf(x.arrivals[i], x.correlation, reply)) + [ContextDone]
  }

  ghost predicate ArrivalAvoids(a: Arrival, ids: set<string>) {
    match a
    case Foreign(r) => Avoids(r, ids)
    case Own(before, after) => Avoids(before, ids) && Avoids(after, ids)
    case _ => true
  }

  /** The ids are random: whatever arrives during the exchange, apart from its own answer, is about none of them. */
  ghost predicate ExchangeAvoids(x: Exchange, ids: set<string>) {
    forall k :: 0 <= k < |x.arrivals| ==> ArrivalAvoids(x.arrivals[k], ids)
  }

  /** Only a command that was carried out is answered. */
  ghost predicate ExchangeOk(x: Exchange) {
    ExchangeAvoids(x, {x.correlation}) && (AnswerArrives(x) ==> x.delivered)
  }

  lemma EventsAvoidLater(x: Exchange, reply: Reply, later: set<string>)
    requires ExchangeAvoids(x, later) && x.correlation !in later
    ensures EventsAvoid(EventsOf(x, reply), later)
  {
    var events := EventsOf(x, reply);
    forall k | 0 <= k < |events| && events[k].Arrives?
      ensures Avoids(events[k].response, later)
    {
      assert ArrivalAvoids(x.arrivals[k], later);
    }
  }

  /** A verdict is taken from the own answer only, and is what the broker replied. */
  lemma VerdictIsTheReply(slot: Option<Response>, x: Exchange, reply: Reply)
    requires ExchangeOk(x) && SlotAvoids(slot, {x.correlation})
    ensures var outcome := Await(slot, EventsOf(x, reply), x.correlation);
            outcome.Accepted? || outcome.Rejected? ==>
              AnswerArrives(x) && outcome == if reply.Done? then Accepted else Rejected(ErrorText(reply))
  {
    hide Await;
    var events := EventsOf(x, reply);
    var outcome := Await(slot, events, x.correlation);
    if outcome.Accepted? || outcome.Rejected? {
      VerdictIsOwn(slot, events, x.correlation);
      if slot.Some? {
        AvoidedSaysNothing(slot.value, x.correlation);
      }
      var k :| 0 <= k < |events| && events[k].Arrives? && Verdict(events[k].response, x.correlation) == Some(outcome);
      assert ArrivalAvoids(x.arrivals[k], {x.correlation});
      match x.arrivals[k]
      case Foreign(r) => AvoidedSaysNothing(r, x.correlation);
      case Own(before, after) => OwnItemSpeaks(before, Item(x.correlation, ErrorText(reply)), after);
    }
  }

  // ---------------------------------------------------------------------------
  // Provisioning over a connection that may lose commands and answers
  // ---------------------------------------------------------------------------

  /** What became of a command: its answer was read, or the call gave up after or before it was carried out. */
  datatype Fate = Answered | LostAfter | LostBefore

  datatype Outcome = Succeeded | Failed(reply: Option<Reply>)

  /** What becomes of a command that the broker would answer with `reply`, and what is left in the channel. */
  function Exchanged(slot: Option<Response>, x: Exchange, reply: Reply): (Fate, Option<Response>) {
    var given := if x.delivered then LostAfter else LostBefore;
    if !x.published then (given, slot)
    else
      var outcome := Await(slot, EventsOf(x, reply), x.correlation);
      (if outcome.Accepted? || outcome.Rejected? then Answered else given,
       SlotAfter(slot, EventsOf(x, reply), x.correlation))
  }

  /** The fates of the commands from the k-th on; what is not sent any more is lost before. */
  function FatesFrom(
    b: Broker, slot: Option<Response>, m: string, password: string, xs: seq<Exchange>, k: nat): (fs: seq<Fate>)
    requires k <= 4 == |xs|
    ensures |fs| == 4 - k
    decreases 4 - k
  {
    if k == 4 then []
    else
      var (after, reply) := Execute(b, Script(m, password)[k]);
      var (fate, left) := Exchanged(slot, xs[k], reply);
      if fate.Answered? && (if k < 2 then !reply.Refused? else reply.AlreadyExists?)
      then [fate] + FatesFrom(after, left, m, password, xs, k + 1)
      else [fate] + seq(3 - k, _ => LostBefore)
  }

  /** The fates of the four commands of one provisioning call, whose session has a channel of its own. */
  function FatesOf(b: Broker, m: string, password: string, connected: bool, xs: seq<Exchange>): (fs: seq<Fate>)
    requires |xs| == 4
    ensures |fs| == 4
  {
    if connected then FatesFrom(b, None, m, password, xs, 0) else seq(4, _ => LostBefore)
  }

  /** Every command that has to be sent is answered; the update only when the client is `known` before. */
  predicate AllAnswered(fates: seq<Fate>, known: bool)
    requires |fates| == 4
  {
    fates[0].Answered? && fates[1].Answered? && fates[2].Answered? && (known ==> fates[3].Answered?)
  }

  /** Ids are fresh: none is used twice, and nothing that arrives is about a command still to be sent. */
  ghost predicate AllFresh(xs: seq<Exchange>) {
    (forall i :: 0 <= i < |xs| ==> ExchangeOk(xs[i]))
    && forall i, j :: 0 <= i < j < |xs| ==>
        xs[i].correlation != xs[j].correlation && ExchangeAvoids(xs[i], {xs[j].correlation})
  }

  /** The ids of the commands from the k-th on. */
  ghost function IdsFrom(xs: seq<Exchange>, k: nat): set<string>
    requires k <= |xs|
  {
    set i | k <= i < |xs| :: xs[i].correlation
  }

  lemma FreshFor(xs: seq<Exchange>, k: nat)
    requires k < |xs| && AllFresh(xs)
    ensures ExchangeOk(xs[k]) && xs[k].correlation !in IdsFrom(xs, k + 1) && ExchangeAvoids(xs[k], IdsFrom(xs, k + 1))
  {
    forall a | 0 <= a < |xs[k].arrivals|
      ensures ArrivalAvoids(xs[k].arrivals[a], IdsFrom(xs, k + 1))
    {
      forall i | k + 1 <= i < |xs|
        ensures ArrivalAvoids(xs[k].arrivals[a], {xs[i].correlation})
      {
        assert ExchangeAvoids(xs[k], {xs[i].correlation});
      }
    }
  }

  lemma FewerIds(slot: Option<Response>, xs: seq<Exchange>, k: nat)
    requires k < |xs| && SlotAvoids(slot, IdsFrom(xs, k))
    ensures SlotAvoids(slot, {xs[k].correlation}) && SlotAvoids(slot, IdsFrom(xs, k + 1))
  {
    assert IdsFrom(xs, k + 1) <= IdsFrom(xs, k) && xs[k].correlation in IdsFrom(xs, k);
  }

  /** What one exchange leaves in the channel is about no command still to be sent. */
  lemma ExchangeLeaves(slot: Option<Response>, xs: seq<Exchange>, k: nat, reply: Reply)
    requires k < |xs| && AllFresh(xs) && SlotAvoids(slot, IdsFrom(xs, k))
    ensures SlotAvoids(Exchanged(slot, xs[k], reply).1, IdsFrom(xs, k + 1))
  {
    hide SlotAfter, Await, EventsOf, EventsAvoid, SlotAvoids, ExchangeAvoids, ExchangeOk, AllFresh;
    FreshFor(xs, k);
    FewerIds(slot, xs, k);
    EventsAvoidLater(xs[k], reply, IdsFrom(xs, k + 1));
    SlotStillAvoids(slot, EventsOf(xs[k], reply), xs[k].correlation, IdsFrom(xs, k + 1));
  }

  /** A command counts as answered only if its publish succeeded, the broker carried it out, and its own answer arrived:
      whatever stale responses say and wherever they sit. */
  lemma {:induction false} OnlyOwnAnswersCount(b: Broker, slot: Option<Response>, m: string, password: string,
                                               xs: seq<Exchange>, k: nat, i: nat)
    requires k <= i < 4 == |xs| && AllFresh(xs) && SlotAvoids(slot, IdsFrom(xs, k))
    requires FatesFrom(b, slot, m, password, xs, k)[i - k].Answered?
    ensures xs[i].published && xs[i].delivered && AnswerArrives(xs[i])
    decreases i - k
  {
    hide AllFresh, Exchanged, SlotAvoids, AnswerArrives, Execute, ExchangeOk;
    var (after, reply) := Execute(b, Script(m, password)[k]);
    if i == k {
      AnsweredByItself(slot, xs, k, reply);
    } else {
      ExchangeLeaves(slot, xs, k, reply);
      OnlyOwnAnswersCount(after, Exchanged(slot, xs[k], reply).1, m, password, xs, k + 1, i);
    }
  }

  lemma AnsweredByItself(slot: Option<Response>, xs: seq<Exchange>, k: nat, reply: Reply)
    requires k < |xs| && AllFresh(xs) && SlotAvoids(slot, IdsFrom(xs, k)) && Exchanged(slot, xs[k], reply).0.Answered?
    ensures xs[k].published && xs[k].delivered && AnswerArrives(xs[k])
  {
    hide AllFresh, SlotAvoids, Await, SlotAfter;
    FreshFor(xs, k);
    FewerIds(slot, xs, k);
    VerdictIsTheReply(slot, xs[k], reply);
  }

  class Session {
    var broker: Broker
    var channel: Channel

    constructor (b: Broker)
      ensures broker == b && fresh(channel)
    {
      broker := b;
      channel := new Channel();
    }

    method Send(c: Command, x: Exchange) returns (r: Outcome)
      requires ExchangeOk(x) && SlotAvoids(channel.slot, {x.correlation})
      modifies this`broker, channel
      ensures var (after, reply) := Execute(old(broker), c);
              var (fate, left) := Exchanged(old(channel.slot), x, reply);
              && broker == (if x.delivered then after else old(broker)) && channel.slot == left
              && (fate.LostBefore? ==> !x.delivered) && (fate.Answered? ==> x.delivered)
              && r == if !fate.Answered? then Failed(None) else if reply.Done? then Succeeded else Failed(Some(reply))
    {
      hide Await, SlotAfter, Verdict, Execute, ReplyOf, EventsOf, AnswerArrives, Avoids;
      var (after, reply) := Execute(broker, c);
      if x.delivered {
        broker := after;
      }
      if !x.published {
        return Failed(None);
      }
      VerdictIsTheReply(channel.slot, x, reply);
      TextsAreRead();
      var outcome := channel.AwaitReply(x.correlation, EventsOf(x, reply));
      match outcome
      case Accepted => return Succeeded;
      case Rejected(error) => return Failed(Some(ReplyOf(error)));
      case Cancelled => return Failed(None);
      case Waiting => return Failed(None);
    }

    method EnsureRole(m: string, ghost password: string, xs: seq<Exchange>) returns (r: Outcome)
      requires Clean(broker) && |xs| == 4 && AllFresh(xs) && channel.slot == None
      modifies this`broker, channel
      ensures Clean(broker) && OthersUntouched(old(broker), broker, m) && broker.clients == old(broker).clients
      ensures var fates := FatesFrom(old(broker), None, m, password, xs, 0);
              && (r.Succeeded? <==> fates[0].Answered? && fates[1].Answered?)
              && (r.Succeeded? ==> fates[2..] == FatesFrom(broker, channel.slot, m, password, xs, 2))
      ensures r.Succeeded? ==> RoleName(m) in broker.roles && broker.roles[RoleName(m)] == map[OwnKey(m) := OWN_ACL]
      ensures r.Succeeded? ==> SlotAvoids(channel.slot, IdsFrom(xs, 2))
    {
      hide AllFresh, ExchangeOk, ExchangeAvoids, AnswerArrives, Exchanged, SlotAvoids, Clean, OthersUntouched;
      var b, c0, c1 := broker, CreateRole(RoleName(m)), AddRoleAcl(RoleName(m), OwnKey(m), OWN_ACL);
      EmptySlotAvoids(IdsFrom(xs, 0));
      r := SendScripted(m, password, c0, xs, 0);
      if r.Failed? && r.reply != Some(AlreadyExists) {
        return;
      }
      ghost var mid := broker;
      AclIsOwn(mid, m);
      r := SendScripted(m, password, c1, xs, 1);
      BothUntouched(b, mid, broker, m);
      if r.Failed? && r.reply == Some(AlreadyExists) {
        r := Succeeded;
      }
    }

    /** The k-th command of the script. */
    method SendScripted(ghost m: string, ghost password: string, c: Command, xs: seq<Exchange>, k: nat)
        returns (r: Outcome)
      requires Clean(broker) && k < 4 == |xs| && c == Script(m, password)[k]
      requires AllFresh(xs) && SlotAvoids(channel.slot, IdsFrom(xs, k))
      modifies this`broker, channel
      ensures var (after, reply) := Execute(old(broker), c);
              var (fate, left) := Exchanged(old(channel.slot), xs[k], reply);
              && broker == (if xs[k].delivered then after else old(broker)) && channel.slot == left
              && (fate.Answered? ==> xs[k].delivered)
              && r == if !fate.Answered? then Failed(None) else if reply.Done? then Succeeded else Failed(Some(reply))
      ensures SlotAvoids(channel.slot, IdsFrom(xs, k + 1))
      ensures Clean(broker) && OthersUntouched(old(broker), broker, m)
    {
      hide AllFresh, ExchangeOk, ExchangeAvoids, AnswerArrives, Exchanged, SlotAvoids, Clean;
      CommandKeeps(broker, m, password, k);
      FreshFor(xs, k);
      FewerIds(channel.slot, xs, k);
      ExchangeLeaves(channel.slot, xs, k, Execute(broker, c).1);
      r := Send(c, xs[k]);
    }

    method CreateOrUpdateClient(m: string, password: string, xs: seq<Exchange>) returns (r: Outcome)
      requires Clean(broker) && RoleName(m) in broker.roles
      requires |xs| == 4 && AllFresh(xs) && SlotAvoids(channel.slot, IdsFrom(xs, 2))
      modifies this`broker, channel
      ensures Clean(broker) && OthersUntouched(old(broker), broker, m) && broker.roles == old(broker).roles
      ensures var fates := FatesFrom(old(broker), old(channel.slot), m, password, xs, 2);
              r.Succeeded? <==> fates[0].Answered? && (m in old(broker).clients ==> fates[1].Answered?)
      ensures r.Succeeded? ==> m in broker.clients && broker.clients[m] == MasterClient(m, password)
                               && forall c: string, p: string :: LogsIn(broker, m, c, p) <==> c == m && p == password
    {
      hide AllFresh, ExchangeOk, ExchangeAvoids, AnswerArrives, Exchanged, SlotAvoids, Clean, OthersUntouched;
      var b := broker;
      r := SendScripted(m, password, CreateClient(m, MasterClient(m, password)), xs, 2);
      if r.Failed? && r.reply == Some(AlreadyExists) {
        ghost var mid := broker;
        r := SendScripted(m, password, ModifyClient(m, MasterClient(m, password)), xs, 3);
        BothUntouched(b, mid, broker, m);
      }
    }

    /** A session with a channel of its own; `connected` says whether the broker let it in. From whatever earlier
        attempts left behind: success exactly when every command that had to be sent was answered, and then exactly the
        wanted credentials; no other master is touched either way. */
    method ProvisionMaster(m: string, password: string, connected: bool, xs: seq<Exchange>) returns (r: Outcome)
      requires Clean(broker) && |xs| == 4 && AllFresh(xs)
      modifies this
      ensures Clean(broker) && OthersUntouched(old(broker), broker, m)
      ensures !connected ==> !r.Succeeded? && broker == old(broker)
      ensures r.Succeeded? <==> AllAnswered(FatesOf(old(broker), m, password, connected, xs), m in old(broker).clients)
      ensures r.Succeeded? ==> Provisioned(broker, m, password) && InForce(broker, m, password)
      ensures r.Succeeded? ==> forall i :: 0 <= i < 3 || (i == 3 && m in old(broker).clients) ==>
                                 xs[i].published && xs[i].delivered && AnswerArrives(xs[i])
    {
      hide AllFresh, FatesFrom, AnswerArrives, SlotAvoids, Clean, OthersUntouched, InForce;
      var b := broker;
      SameUntouched(b, m);
      if !connected {
        return Failed(None);
      }
      channel := new Channel();
      r := EnsureRole(m, password, xs);
      if r.Succeeded? {
        ghost var mid := broker;
        r := CreateOrUpdateClient(m, password, xs);
        BothUntouched(b, mid, broker, m);
      }
      if r.Succeeded? {
        ProvisionedIsInForce(broker, m, password);
        AllOwn(b, m, password, xs);
      }
    }
  }

  lemma AllOwn(b: Broker, m: string, password: string, xs: seq<Exchange>)
    requires |xs| == 4 && AllFresh(xs) && AllAnswered(FatesOf(b, m, password, true, xs), m in b.clients)
    ensures forall i :: 0 <= i < 3 || (i == 3 && m in b.clients) ==>
              xs[i].published && xs[i].delivered && AnswerArrives(xs[i])
  {
    hide AllFresh, FatesFrom, AnswerArrives, SlotAvoids;
    EmptySlotAvoids(IdsFrom(xs, 0));
    forall i | 0 <= i < 3 || (i == 3 && m in b.clients)
      ensures xs[i].published && xs[i].delivered && AnswerArrives(xs[i])
    {
      OnlyOwnAnswersCount(b, None, m, password, xs, 0, i);
    }
  }

  lemma EmptySlotAvoids(ids: set<string>)
    ensures SlotAvoids(None, ids)
  {
  }

  lemma BothUntouched(b: Broker, c: Broker, d: Broker, m: string)
    requires OthersUntouched(b, c, m) && OthersUntouched(c, d, m)
    ensures OthersUntouched(b, d, m)
  {
  }
}
