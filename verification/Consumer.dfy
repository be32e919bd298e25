/** vps/internal/telemetry: which messages reach the store, and for which master. */
module Consumer {
  import opened Bytes
  import opened HostTables
  import opened StoreBatch
  import Dynsec

  /** Go's zero time in microseconds of Unix time. */
  const ZERO_TIME := -62135596800 * 1000000

  /** Batch.Validate and Reading.Validate. */
  predicate Validate(b: Batch) {
    b.messageId != "" && b.measuredAt != ZERO_TIME && b.firmware != "" && 0 < |b.readings| <= 128
    && forall k :: 0 <= k < |b.readings| ==> ValidateReading(b.readings[k])
  }

  predicate ValidateReading(r: Reading) {
    r.slave != "" && r.calibration != "" && r.firmware != ""
    && !(r.ph < 0.0 || r.ph > 14.0) && !(r.ec < 0.0) && !(r.light < 0.0) && !(r.moisture < 0.0 || r.moisture > 100.0)
  }

  /** What a batch has to say to be valid; the zero time is the start of year 1, 719162 days before 1970. */
  lemma ValidBatches(b: Batch)
    ensures Validate(b) <==>
              && b.messageId != "" && b.firmware != "" && b.measuredAt != -719162 * 86400 * 1000000
              && 1 <= |b.readings| <= 128
              && forall k :: 0 <= k < |b.readings| ==>
                   var r := b.readings[k];
                   && r.slave != "" && r.calibration != "" && r.firmware != ""
                   && 0.0 <= r.ph <= 14.0 && 0.0 <= r.ec && 0.0 <= r.light && 0.0 <= r.moisture <= 100.0
    ensures forall k :: 0 <= k < |b.readings| ==>
              var r := b.readings[k];
              InRange(r) <==> 0.0 <= r.ph <= 14.0 && 0.0 <= r.ec && 0.0 <= r.light && 0.0 <= r.moisture <= 100.0
  {
    if Validate(b) {
      assert forall k :: 0 <= k < |b.readings| ==> ValidateReading(b.readings[k]);
    }
  }

  // ---------------------------------------------------------------------------
  // Topics
  // ---------------------------------------------------------------------------

  /** strings.Split with a one-character separator. */
  function Split(s: string, separator: char): (parts: seq<string>)
    ensures parts != []
  {
    if s == "" then [""]
    else
      var rest := Split(s[1..], separator);
      if s[0] == separator then [""] + rest else [[s[0]] + rest[0]] + rest[1..]
  }

  function MasterFromTopic(topic: string): Option<string> {
    var parts := Split(topic, '/');
    if |parts| == 5 && parts[0] == "farm" && parts[1] == "v1" && parts[2] == "masters" && parts[4] == "telemetry"
       && parts[3] != "" then Some(parts[3]) else None
  }

  function Join(parts: seq<string>, separator: char): string
    requires parts != []
  {
    if |parts| == 1 then parts[0] else parts[0] + [separator] + Join(parts[1..], separator)
  }

  lemma {:induction false} SplitJoins(s: string, separator: char)
    ensures Join(Split(s, separator), separator) == s
    ensures forall k :: 0 <= k < |Split(s, separator)| ==> separator !in Split(s, separator)[k]
  {
    if s != "" {
      var rest := Split(s[1..], separator);
      SplitJoins(s[1..], separator);
      assert s == [s[0]] + s[1..];
      if s[0] == separator {
        assert ([""] + rest)[1..] == rest;
      } else if |rest| > 1 {
        assert [s[0]] + (rest[0] + [separator] + Join(rest[1..], separator))
            == [s[0]] + rest[0] + [separator] + Join(rest[1..], separator);
      }
    }
  }

  lemma {:induction false} SplitsOff(s: string, t: string, separator: char)
    requires separator !in s
    ensures Split(s + [separator] + t, separator) == [s] + Split(t, separator)
    ensures Split(s, separator) == [s]
  {
    var u := s + [separator] + t;
    if s == "" {
      assert u[1..] == t;
    } else {
      SplitsOff(s[1..], t, separator);
      assert u[1..] == s[1..] + [separator] + t;
      assert [s[0]] + s[1..] == s;
    }
  }

  lemma {:induction false} JoinSplits(parts: seq<string>, separator: char)
    requires parts != [] && forall k :: 0 <= k < |parts| ==> separator !in parts[k]
    ensures Split(Join(parts, separator), separator) == parts
  {
    if |parts| == 1 {
      SplitsOff(parts[0], "", separator);
    } else {
      JoinSplits(parts[1..], separator);
      SplitsOff(parts[0], Join(parts[1..], separator), separator);
      assert parts == [parts[0]] + parts[1..];
    }
  }

  function TopicParts(m: string): seq<string> {
    ["farm", "v1", "masters", m, "telemetry"]
  }

  lemma JoinCons(part: string, rest: seq<string>, separator: char)
    requires rest != []
    ensures Join([part] + rest, separator) == part + [separator] + Join(rest, separator)
  {
    assert ([part] + rest)[1..] == rest;
  }

  lemma OwnTopic(m: string)
    ensures Join(TopicParts(m), '/') == Dynsec.OwnKey(m).topic
  {
    hide Join;
    JoinLast("telemetry", '/');
    JoinCons(m, ["telemetry"], '/');
    JoinCons("masters", [m] + ["telemetry"], '/');
    JoinCons("v1", ["masters"] + ([m] + ["telemetry"]), '/');
    JoinCons("farm", ["v1"] + (["masters"] + ([m] + ["telemetry"])), '/');
    assert TopicParts(m) == ["farm"] + (["v1"] + (["masters"] + ([m] + ["telemetry"])));
    TopicText(m);
  }

  lemma JoinLast(part: string, separator: char)
    ensures Join([part], separator) == part
  {
  }

  lemma TopicText(m: string)
    ensures "farm" + "/" + ("v1" + "/" + ("masters" + "/" + (m + "/" + "telemetry"))) == Dynsec.OwnKey(m).topic
  {
    var tail := m + "/telemetry";
    assert m + "/" + "telemetry" == tail;
    assert "masters" + "/" + tail == "masters/" + tail;
    assert "v1" + "/" + ("masters/" + tail) == "v1/masters/" + tail;
    assert "farm" + "/" + ("v1/masters/" + tail) == "farm/v1/masters/" + tail;
    assert "farm/v1/masters/" + m + "/telemetry" == "farm/v1/masters/" + tail;
  }

  /** A message is taken for master `m` exactly when it came in on the one topic that the broker lets `m` publish to. */
  lemma TopicNamesItsMaster(topic: string, m: string)
    ensures MasterFromTopic(topic) == Some(m) <==> m != "" && '/' !in m && topic == Dynsec.OwnKey(m).topic
  {
    hide Join, Split, Dynsec.OwnKey;
    OwnTopic(m);
    if MasterFromTopic(topic) == Some(m) {
      SplitJoins(topic, '/');
      assert Split(topic, '/') == TopicParts(m);
      assert '/' !in Split(topic, '/')[3];
    } else if m != "" && '/' !in m && topic == Dynsec.OwnKey(m).topic {
      JoinSplits(TopicParts(m), '/');
    }
  }

  // ---------------------------------------------------------------------------
  // Handling a message
  // ---------------------------------------------------------------------------

  /** Consumer.Handle after JSON decoding; `payload` is None when that failed. */
  function Handle(t: Tables, topic: string, payload: Option<Batch>, commits: bool): Tables {
    match MasterFromTopic(topic)
    case None => t
    case Some(m) =>
      if payload.None? || !Validate(payload.value) then t else Store(t, m, payload.value, commits).0
  }

  /** A message changes the database exactly when it is a valid batch on its master's topic, storable and committed;
      after validation the range checks of the table never decide. */
  lemma HandlesExactly(t: Tables, topic: string, payload: Option<Batch>, commits: bool)
    ensures Handle(t, topic, payload, commits) != t <==>
              MasterFromTopic(topic).Some? && payload.Some? && Validate(payload.value) && commits
              && Storable(t, MasterFromTopic(topic).value, payload.value)
    ensures Handle(t, topic, payload, commits) != t ==>
              Handle(t, topic, payload, commits) == Store(t, MasterFromTopic(topic).value, payload.value, true).0
    ensures payload.Some? && Validate(payload.value) ==>
              forall k :: 0 <= k < |payload.value.readings| ==> InRange(payload.value.readings[k])
  {
    if MasterFromTopic(topic).Some? && payload.Some? {
      StoresExactlyTheStorable(t, MasterFromTopic(topic).value, payload.value, commits);
    }
  }
}
