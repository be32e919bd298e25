/** Single calls of the enrollment service: vps/internal/enrollment/enrollment.go over vps/internal/store/store.go, with
    the exact conditions under which they succeed. How calls of several clients interleave is the matter of
    `MasterEnrollment`, `SlaveEnrollment` and `HostRun`, which share the checks and row updates used here. Strings are
    ASCII; SHA-256 is a function of the token.
  */
module Enrollment {
  import opened Bytes
  import opened HostTables
  import Consumer
  import Dynsec
  import M = MasterEnrollment
  import S = SlaveEnrollment

  type Hash = string -> string

  // ---------------------------------------------------------------------------
  // What the service accepts
  // ---------------------------------------------------------------------------

  predicate Alphanumeric(c: char) {
    'a' <= c <= 'z' || 'A' <= c <= 'Z' || '0' <= c <= '9'
  }

  predicate ValidId(s: string) {
    1 <= |s| <= 64 && Alphanumeric(s[0])
    && forall i :: 0 <= i < |s| ==> Alphanumeric(s[i]) || s[i] == '-' || s[i] == '_' || s[i] == '.'
  }

  predicate ValidLabel(s: string) {
    |s| <= 120
  }

  predicate Blank(c: char) {
    c == ' ' || '\t' <= c <= '\r'
  }

  function TrimLeft(s: string): string {
    if s != "" && Blank(s[0]) then TrimLeft(s[1..]) else s
  }

  function TrimRight(s: string): string {
    if s != "" && Blank(s[|s| - 1]) then TrimRight(s[..|s| - 1]) else s
  }

  predicate ValidSecret(s: string) {
    |TrimRight(TrimLeft(s))| >= 32 && |s| <= 256
  }

  /** Ids are 1 to 64 letters, digits, hyphens, underscores and dots, the first of them a letter or digit; labels have
      at most 120 characters. */
  lemma IdsAndLabels(s: string)
    ensures ValidId(s) <==>
              && 1 <= |s| <= 64 && s[0] != '-' && s[0] != '_' && s[0] != '.'
              && forall i :: 0 <= i < |s| ==>
                   || 'a' <= s[i] <= 'z' || 'A' <= s[i] <= 'Z' || '0' <= s[i] <= '9'
                   || s[i] == '-' || s[i] == '_' || s[i] == '.'
    ensures ValidLabel(s) <==> |s| <= 120
  {
  }

  /** Secrets have at most 256 characters, and at least 32 without the white space around them. */
  lemma Secrets(left: string, core: string, right: string)
    requires forall c :: c in left + right ==> c in " \t\n\U{000B}\U{000C}\r"
    requires core != "" ==> core[0] !in " \t\n\U{000B}\U{000C}\r" && core[|core| - 1] !in " \t\n\U{000B}\U{000C}\r"
    ensures ValidSecret(left + core + right) <==> |core| >= 32 && |left| + |core| + |right| <= 256
  {
    BlanksAre();
    assert forall c :: c in left || c in right ==> c in left + right;
    if core == "" {
      TrimAll(left + right);
      assert left + core + right == left + right;
    } else {
      TrimsLeft(left, core + right);
      TrimsRight(core, right);
      assert left + core + right == left + (core + right);
    }
  }

  lemma BlanksAre()
    ensures forall c: char :: Blank(c) <==> c in " \t\n\U{000B}\U{000C}\r"
  {
  }

  lemma {:induction false} TrimAll(s: string)
    requires forall c :: c in s ==> Blank(c)
    ensures TrimLeft(s) == "" && TrimRight("") == ""
  {
    if s != "" {
      assert s[0] in s && forall c :: c in s[1..] ==> c in s;
      TrimAll(s[1..]);
    }
  }

  lemma {:induction false} TrimsLeft(left: string, s: string)
    requires (forall c :: c in left ==> Blank(c)) && s != "" && !Blank(s[0])
    ensures TrimLeft(left + s) == s
  {
    if left == "" {
      assert left + s == s;
    } else {
      assert left[0] in left && forall c :: c in left[1..] ==> c in left;
      TrimsLeft(left[1..], s);
      assert (left + s)[1..] == left[1..] + s;
    }
  }

  lemma {:induction false} TrimsRight(s: string, right: string)
    requires (forall c :: c in right ==> Blank(c)) && s != "" && !Blank(s[|s| - 1])
    ensures TrimRight(s + right) == s
    decreases |right|
  {
    if right == "" {
      assert s + right == s;
    } else {
      var init := right[..|right| - 1];
      assert right[|right| - 1] in right && forall c :: c in init ==> c in right;
      TrimsRight(s, init);
      assert (s + right)[..|s + right| - 1] == s + init;
    }
  }

  /** A valid master id is what the consumer reads back from the one topic its owner may publish to. */
  lemma ValidIdsOwnTheirTopic(m: string)
    requires ValidId(m)
    ensures Consumer.MasterFromTopic(Dynsec.OwnKey(m).topic) == Some(m)
  {
    assert '/' !in m;
    Consumer.TopicNamesItsMaster(Dynsec.OwnKey(m).topic, m);
  }

  /** A valid id has no wildcards, so that its rule covers its own topic only. */
  lemma WorksAtTheBroker(b: Dynsec.Broker, m: string, password: string)
    requires ValidId(m) && Dynsec.InForce(b, m, password)
    ensures forall c: string, p: string :: Dynsec.LogsIn(b, m, c, p) <==> c == m && p == password
    ensures forall t: string :: Dynsec.MayPublish(b, m, t) <==> t == "farm/v1/masters/" + m + "/telemetry"
  {
    hide Dynsec.LogsIn, Dynsec.MayPublish;
    assert Dynsec.Plain(m);
  }

  // ---------------------------------------------------------------------------
  // The service
  // ---------------------------------------------------------------------------

  datatype Error =
    | BadRequest | NoRandomness | Unavailable | MasterExists
    | MasterRefused(reason: M.Error) | SlaveRefused(cause: S.Error)

  datatype Result<+T> = Ok(value: T) | Err(error: Error)

  datatype Credentials = Credentials(masterId: string, username: string, password: string)

  datatype SlaveResult = SlaveResult(slave: string, master: string, pot: nat, created: bool)

  /** How a transaction ends: rolled back, committed without the client learning it, or committed. */
  datatype Ending = RolledBack | Unacknowledged | Committed

  /** The locked row lets this token enroll the master. */
  ghost predicate Grants(masters: map<string, Master>, m: string, tokenHash: string) {
    m in masters && !masters[m].disabled && !masters[m].enrolled
    && masters[m].tokenHash == Some(tokenHash) && tokenHash != ""
  }

  /** One call of EnrollSlave: the two tables afterwards, and what it returns. */
  function SlaveEnrolled(hash: Hash, masters: map<string, Master>, pots: map<nat, string>, slaves: map<string, Slave>,
                         s: string, m: string, nodeLabel: string, token: string, pot: nat, ending: Ending)
    : (map<nat, string>, map<string, Slave>, Result<SlaveResult>)
  {
    var lost := Err(SlaveRefused(S.Database));
    if !ValidId(s) || !ValidId(m) || !ValidLabel(nodeLabel) || !ValidSecret(token) then (pots, slaves, Err(BadRequest))
    else
      match S.CheckMaster(masters, m)
      case Stopped(error) => (pots, slaves, Err(SlaveRefused(error)))
      case _ =>
        if s !in slaves then
          if pot in pots || ending == RolledBack then (pots, slaves, lost)
          else
            (pots[pot := nodeLabel], slaves[s := Slave(m, pot, nodeLabel, hash(token), false)],
             if ending == Committed then Ok(SlaveResult(s, m, pot, true)) else lost)
        else if slaves[s].transferHash != hash(token) then (pots, slaves, Err(SlaveRefused(S.InvalidTransfer)))
        else if ending == RolledBack then (pots, slaves, lost)
        else
          (pots, slaves[s := slaves[s].(master := m, nodeLabel := nodeLabel)],
           if ending == Committed then Ok(SlaveResult(s, m, slaves[s].pot, false)) else lost)
  }

  class Service {
    const session: Dynsec.Session
    const hash: Hash
    var masters: map<string, Master>
    var pots: map<nat, string>
    var slaves: map<string, Slave>

    constructor (s: Dynsec.Session, h: Hash)
      ensures session == s && hash == h && masters == map[] && pots == map[] && slaves == map[]
    {
      session, hash, masters, pots, slaves := s, h, map[], map[], map[];
    }

    /** `token` is None when no randomness was to be had, `inserted` whether the INSERT went through. */
    method CreateMasterProvisioning(m: string, nodeLabel: string, token: Option<string>, inserted: bool)
      returns (r: Result<string>)
      modifies this`masters
      ensures r.Ok? <==> ValidId(m) && ValidLabel(nodeLabel) && token.Some? && inserted && m !in old(masters)
      ensures r.Ok? ==> Some(r.value) == token && (hash(r.value) != "" ==> Grants(masters, m, hash(r.value)))
      ensures masters == if r.Ok? then old(masters)[m := Master(Some(hash(r.value)), false, false, None)]
                         else old(masters)
    {
      if !ValidId(m) || !ValidLabel(nodeLabel) {
        return Err(BadRequest);
      }
      if token.None? {
        return Err(NoRandomness);
      }
      if m in masters {
        return Err(MasterExists);
      }
      if !inserted {
        return Err(MasterRefused(M.Database));
      }
      masters := masters[m := Master(Some(hash(token.value)), false, false, None)];
      r := Ok(token.value);
    }

    /** Credentials come out exactly when the token is the unused one of a master that is not disabled, every command
        was answered and the commit acknowledged; then the broker has them and the token is gone. Otherwise the row is
        as it was, unless the commit succeeded unnoticed. No other master's row or credentials change. */
    method EnrollMaster(m: string, token: string, password: Option<string>, provisioner: bool,
                        connected: bool, xs: seq<Dynsec.Exchange>, ending: Ending)
      returns (r: Result<Credentials>)
      requires |xs| == 4 && Dynsec.AllFresh(xs) && Dynsec.Clean(session.broker)
      modifies this`masters, session
      ensures var b := old(session.broker);
              var asked := ValidId(m) && ValidSecret(token) && password.Some? && provisioner
                           && Grants(old(masters), m, hash(token));
              var provisioned :=
                asked && Dynsec.AllAnswered(Dynsec.FatesOf(b, m, password.value, connected, xs), m in b.clients);
              && (r.Ok? <==> provisioned && ending == Committed)
              && masters == (if provisioned && ending != RolledBack
                             then old(masters)[m := M.Enrolled(old(masters)[m], m)]
                             else old(masters))
              && (!asked ==> session.broker == b)
      ensures r.Ok? ==> m in masters && masters[m] == Master(None, true, false, Some(m))
      ensures r.Ok? ==> Some(r.value.password) == password && r.value == Credentials(m, m, r.value.password)
                        && Dynsec.Provisioned(session.broker, m, r.value.password)
      ensures r.Ok? ==> forall c: string, p: string ::
                Dynsec.LogsIn(session.broker, r.value.username, c, p) <==>
                    c == r.value.masterId && p == r.value.password
      ensures r.Ok? ==> forall t: string ::
                Dynsec.MayPublish(session.broker, r.value.username, t) <==> t == "farm/v1/masters/" + m + "/telemetry"
      ensures Dynsec.Clean(session.broker) && Dynsec.OthersUntouched(old(session.broker), session.broker, m)
    {
      hide Dynsec.FatesOf, Dynsec.AllAnswered, Dynsec.AllFresh, Dynsec.AnswerArrives, Dynsec.InForce, Dynsec.LogsIn,
        Dynsec.MayPublish;
      Dynsec.SameUntouched(session.broker, m);
      if !ValidId(m) || !ValidSecret(token) {
        return Err(BadRequest);
      }
      if password.None? {
        return Err(NoRandomness);
      }
      if !provisioner {
        return Err(Unavailable);
      }
      var checked := M.Checked(masters, M.Call(m, hash(token), password.value, M.Start));
      if checked.Stopped? {
        return Err(MasterRefused(checked.error));
      }
      var outcome := session.ProvisionMaster(m, password.value, connected, xs);
      if outcome.Failed? {
        return Err(MasterRefused(M.Provisioning));
      }
      if ending == RolledBack {
        return Err(MasterRefused(M.Database));
      }
      WorksAtTheBroker(session.broker, m, password.value);
      masters := masters[m := M.Enrolled(masters[m], m)];
      r := if ending == Committed then Ok(Credentials(m, m, password.value)) else Err(MasterRefused(M.Database));
    }

    /** `pot` is the uuid drawn for a new pot. A slave is created with a pot of its own, or moved when the transfer
        token is the one it was created with; pot and token of an existing slave never change. */
    method EnrollSlave(s: string, m: string, nodeLabel: string, token: string, pot: nat, ending: Ending)
      returns (r: Result<SlaveResult>)
      modifies this`pots, this`slaves
      ensures (pots, slaves, r)
              == SlaveEnrolled(hash, masters, old(pots), old(slaves), s, m, nodeLabel, token, pot, ending)
      ensures var asked := ValidId(s) && ValidId(m) && ValidLabel(nodeLabel) && ValidSecret(token)
                           && m in masters && !masters[m].disabled && masters[m].enrolled;
              var created := asked && s !in old(slaves) && pot !in old(pots);
              var moved := asked && s in old(slaves) && old(slaves)[s].transferHash == hash(token);
              && (r.Ok? <==> (created || moved) && ending == Committed)
              && pots == (if created && ending != RolledBack then old(pots)[pot := nodeLabel] else old(pots))
              && slaves == (if ending == RolledBack || !(created || moved) then old(slaves)
                            else if created then old(slaves)[s := Slave(m, pot, nodeLabel, hash(token), false)]
                            else old(slaves)[s := old(slaves)[s].(master := m, nodeLabel := nodeLabel)])
      ensures r.Ok? ==> s in slaves && r.value == SlaveResult(s, m, slaves[s].pot, s !in old(slaves))
      ensures forall t :: t in old(slaves) ==>
                t in slaves && slaves[t].pot == old(slaves)[t].pot
                && slaves[t].transferHash == old(slaves)[t].transferHash
    {
      if !ValidId(s) || !ValidId(m) || !ValidLabel(nodeLabel) || !ValidSecret(token) {
        return Err(BadRequest);
      }
      var found := S.CheckMaster(masters, m);
      if found.Stopped? {
        return Err(SlaveRefused(found.error));
      }
      if s !in slaves {
        if pot in pots || ending == RolledBack {
          return Err(SlaveRefused(S.Database));
        }
        pots := pots[pot := nodeLabel];
        slaves := slaves[s := Slave(m, pot, nodeLabel, hash(token), false)];
        return if ending == Committed then Ok(SlaveResult(s, m, pot, true)) else Err(SlaveRefused(S.Database));
      }
      if slaves[s].transferHash != hash(token) {
        return Err(SlaveRefused(S.InvalidTransfer));
      }
      if ending == RolledBack {
        return Err(SlaveRefused(S.Database));
      }
      slaves := slaves[s := slaves[s].(master := m, nodeLabel := nodeLabel)];
      r := if ending == Committed then Ok(SlaveResult(s, m, slaves[s].pot, false)) else Err(SlaveRefused(S.Database));
    }
  }
}
