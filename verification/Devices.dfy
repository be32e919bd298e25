/** The key broadcast of the configuration window: windowConfig/src/devices/DeviceManager.cpp. Texts shown to the user,
    logging and the device store are left out; times are seconds.
  */
module Devices {
  import opened Bytes

  datatype Status = Online | WaitingAck | KeyReceived | Timeout | Error | Offline

  datatype Device = Device(
    id: string, address: string, port: nat, firmware: string, lastSeen: int, status: Status, lastMessageId: string)

  datatype HelloPacket = HelloPacket(mac: string, id: string, firmware: string)

  datatype AckPacket = AckPacket(mac: string, messageId: string, ok: bool)

  /** What broadcastSummary reports. */
  datatype Summary = Summary(messageId: string, targeted: nat, received: nat, errors: nat, timeouts: nat)

  datatype Manager = Manager(
    devices: map<string, Device>,
    knownIdByMac: map<string, string>,
    activeId: string,
    pending: bool,
    summaries: seq<Summary>)

  // ---------------------------------------------------------------------------
  // The events
  // ---------------------------------------------------------------------------

  function Decimal(n: nat): string {
    if n < 10 then ["0123456789"[n]] else Decimal(n / 10) + ["0123456789"[n % 10]]
  }

  function RightJustified(s: string, width: nat): string {
    (if |s| < width then seq(width - |s|, _ => '0') else "") + s
  }

  function WithoutColons(mac: string): string {
    if mac == "" then "" else (if mac[0] == ':' then "" else [mac[0]]) + WithoutColons(mac[1..])
  }

  /** `count` is the number of devices, the new one included; the number given is one more. */
  function FallbackId(mac: string, count: nat): string {
    var clean := WithoutColons(mac);
    "ESP32-" + if |clean| >= 6 then clean[|clean| - 6..] else RightJustified(Decimal(count + 1), 3)
  }

  /** A device with an ordinary address is named after the last three of its six pairs. */
  lemma FallbackOfAnAddress(mac: string, count: nat)
    requires |mac| == 17 && forall i :: 0 <= i < 17 ==> (mac[i] == ':' <==> i % 3 == 2)
    ensures FallbackId(mac, count) == "ESP32-" + mac[9..11] + mac[12..14] + mac[15..]
  {
    hide RightJustified, WithoutColons;
    var six := mac[9..11] + mac[12..14] + mac[15..];
    NoColons(mac[15..]);
    PairsRemain(mac, 4);
    PairsRemain(mac, 3);
    assert WithoutColons(mac[9..]) == six;
    PairsRemain(mac, 2);
    PairsRemain(mac, 1);
    PairsRemain(mac, 0);
    assert mac[0..] == mac;
    SameTail(mac[6..8], six, six);
    SameTail(mac[3..5], mac[6..8] + six, six);
    SameTail(mac[0..2], mac[3..5] + (mac[6..8] + six), six);
  }

  /** Any address with six characters or more between its colons: the last six of them. */
  lemma FallbackOfALongAddress(mac: string, count: nat)
    requires |WithoutColons(mac)| >= 6
    ensures var id, clean := FallbackId(mac, count), WithoutColons(mac);
            |id| == 12 && id[..6] == "ESP32-" && id[6..] == clean[|clean| - 6..]
  {
  }

  lemma SameTail(front: string, s: string, six: string)
    requires |six| == 6 && |s| >= 6 && s[|s| - 6..] == six
    ensures var t := front + s; t[|t| - 6..] == six
  {
  }

  lemma PairsRemain(mac: string, k: nat)
    requires k < 5 && |mac| == 17 && forall i :: 0 <= i < 17 ==> (mac[i] == ':' <==> i % 3 == 2)
    ensures WithoutColons(mac[3 * k..]) == mac[3 * k..3 * k + 2] + WithoutColons(mac[3 * k + 3..])
  {
    var s := mac[3 * k..];
    assert s[1..][1..][1..] == mac[3 * k + 3..];
    assert s[0] != ':' && s[1..][0] != ':' && s[1..][1..][0] == ':';
    assert WithoutColons(s[1..][1..]) == "" + WithoutColons(s[1..][1..][1..]);
    assert WithoutColons(s[1..]) == [s[1]] + WithoutColons(s[1..][1..]);
  }

  lemma {:induction false} NoColons(s: string)
    requires ':' !in s
    ensures WithoutColons(s) == s
  {
    if s != "" {
      assert s[0] != ':';
      NoColons(s[1..]);
    }
  }

  function ValueOf(digits: string): nat
  {
    if digits == "" then 0
    else 10 * ValueOf(digits[..|digits| - 1]) + DigitValue(digits[|digits| - 1])
  }

  function DigitValue(c: char): nat {
    if '0' <= c <= '9' then (c - '0') as nat else 0
  }

  lemma DigitsHaveValues(i: nat)
    requires i < 10
    ensures var c := "0123456789"[i]; '0' <= c <= '9' && DigitValue(c) == i
  {
  }

  /** A device with hardly an address gets a number of at least three digits: one more than there are devices. */
  lemma FallbackOfAShortAddress(mac: string, count: nat)
    requires |WithoutColons(mac)| < 6
    ensures var id := FallbackId(mac, count);
            |id| >= 9 && id[..6] == "ESP32-" && (forall c :: c in id[6..] ==> '0' <= c <= '9')
            && ValueOf(id[6..]) == count + 1
  {
    hide WithoutColons;
    DecimalValue(count + 1);
    JustifiedValue(Decimal(count + 1), 3);
    var id := FallbackId(mac, count);
    assert id[6..] == RightJustified(Decimal(count + 1), 3);
  }

  lemma {:induction false} DecimalValue(n: nat)
    ensures Decimal(n) != "" && (forall c :: c in Decimal(n) ==> '0' <= c <= '9') && ValueOf(Decimal(n)) == n
  {
    hide DigitValue;
    DigitsHaveValues(n % 10);
    if n < 10 {
      assert Decimal(n)[..0] == "";
    } else {
      DecimalValue(n / 10);
      assert Decimal(n)[..|Decimal(n)| - 1] == Decimal(n / 10);
    }
  }

  lemma {:induction false} JustifiedValue(s: string, width: nat)
    requires forall c :: c in s ==> '0' <= c <= '9'
    ensures |RightJustified(s, width)| >= width && (forall c :: c in RightJustified(s, width) ==> '0' <= c <= '9')
    ensures ValueOf(RightJustified(s, width)) == ValueOf(s)
  {
    var zeros := if |s| < width then seq(width - |s|, _ => '0') else "";
    ZerosInFront(zeros, s);
  }

  lemma {:induction false} ZerosInFront(zeros: string, s: string)
    requires (forall c :: c in zeros ==> c == '0') && forall c :: c in s ==> '0' <= c <= '9'
    ensures (forall c :: c in zeros + s ==> '0' <= c <= '9') && ValueOf(zeros + s) == ValueOf(s)
    decreases |zeros| + |s|
  {
    if s != "" {
      var init := s[..|s| - 1];
      assert forall c :: c in init ==> c in s;
      ZerosInFront(zeros, init);
      assert (zeros + s)[..|zeros + s| - 1] == zeros + init;
    } else if zeros != "" {
      var init := zeros[..|zeros| - 1];
      assert forall c :: c in init ==> c in zeros;
      ZerosInFront(init, "");
      assert init + "" == init && zeros + "" == zeros && zeros[|zeros| - 1] in zeros;
    } else {
      assert zeros + s == "";
    }
  }

  const NEW_DEVICE: Device := Device("", "", 4210, "", 0, Offline, "")

  function AfterHello(m: Manager, h: HelloPacket, address: string, port: nat, now: int): Manager {
    if h.mac == "" then m
    else
      var dev := if h.mac in m.devices then m.devices[h.mac] else NEW_DEVICE;
      var count := |m.devices| + if h.mac in m.devices then 0 else 1;
      var id := if h.id != "" then h.id
                else if dev.id != "" then dev.id
                else if h.mac in m.knownIdByMac then m.knownIdByMac[h.mac]
                else FallbackId(h.mac, count);
      var known := if h.id != "" && dev.id != h.id then m.knownIdByMac[h.mac := h.id]
                   else if h.id == "" && dev.id == "" && h.mac !in m.knownIdByMac then m.knownIdByMac[h.mac := id]
                   else m.knownIdByMac;
      var firmware := if h.firmware != "" then h.firmware else dev.firmware;
      m.(devices := m.devices[h.mac := Device(id, address, port, firmware, now, Online, dev.lastMessageId)],
         knownIdByMac := known)
  }

  function Armed(d: Device, id: string): Device {
    if d.status == Offline then d else d.(status := WaitingAck, lastMessageId := id)
  }

  function AfterPrepare(m: Manager, id: string): Manager {
    m.(activeId := id, pending := true, devices := map mac | mac in m.devices :: Armed(m.devices[mac], id))
  }

  predicate Stamped(m: Manager, mac: string) {
    mac in m.devices && m.devices[mac].lastMessageId == m.activeId
  }

  predicate StampedAs(m: Manager, mac: string, status: Status) {
    Stamped(m, mac) && m.devices[mac].status == status
  }

  function Targets(m: Manager): set<string> {
    set mac | mac in m.devices && Stamped(m, mac)
  }

  function TargetsAs(m: Manager, status: Status): set<string> {
    set mac | mac in m.devices && StampedAs(m, mac, status)
  }

  function TimedOut(m: Manager, d: Device): Device {
    if d.lastMessageId == m.activeId && d.status == WaitingAck then d.(status := Timeout) else d
  }

  /** onAckTimeout. */
  function Summarised(m: Manager): Manager {
    if !m.pending then m
    else
      m.(pending := false,
         devices := map mac | mac in m.devices :: TimedOut(m, m.devices[mac]),
         summaries := m.summaries
                      + [Summary(m.activeId, |Targets(m)|, |TargetsAs(m, KeyReceived)|, |TargetsAs(m, Error)|,
                                 |TargetsAs(m, WaitingAck)|)])
  }

  predicate AnyWaiting(m: Manager) {
    exists mac :: mac in m.devices && m.devices[mac].status == WaitingAck
  }

  /** The answer recorded, before the check whether all have answered. */
  function Answered(m: Manager, a: AckPacket, address: string, now: int): Manager
    requires a.mac in m.devices
  {
    m.(devices := m.devices[a.mac := m.devices[a.mac].(
         address := address, lastSeen := now, lastMessageId := a.messageId,
         status := if a.ok then KeyReceived else Error)])
  }

  function AfterAck(m: Manager, a: AckPacket, address: string, now: int): Manager {
    if a.mac !in m.devices then m
    else
      var n := Answered(m, a, address, now);
      if n.pending && !AnyWaiting(n) then Summarised(n) else n
  }

  function Checked(d: Device, now: int, threshold: int): Device {
    if d.status != Offline && now - d.lastSeen > threshold then d.(status := Offline) else d
  }

  function AfterHeartbeat(m: Manager, now: int, threshold: int): Manager {
    m.(devices := map mac | mac in m.devices :: Checked(m.devices[mac], now, threshold))
  }

  // ---------------------------------------------------------------------------
  // The manager's fields
  // ---------------------------------------------------------------------------

  class DeviceManager {
    var devices: map<string, Device>
    var knownIdByMac: map<string, string>
    var activeId: string
    var pending: bool
    var summaries: seq<Summary>

    ghost function Now(): Manager
      reads this
    {
      Manager(devices, knownIdByMac, activeId, pending, summaries)
    }

    /** `historical` are the ids of the device store. */
    constructor (historical: map<string, string>)
      ensures Now() == Manager(map[], historical, "", false, [])
    {
      devices, knownIdByMac, activeId, pending, summaries := map[], historical, "", false, [];
    }

    method HandleHello(h: HelloPacket, address: string, port: nat, now: int)
      modifies this
      ensures Now() == AfterHello(old(Now()), h, address, port, now)
      ensures h.mac == "" ==> Now() == old(Now())
      ensures activeId == old(activeId) && pending == old(pending) && summaries == old(summaries)
      ensures forall mac :: mac != h.mac ==> (mac in devices <==> mac in old(devices))
      ensures forall mac :: mac != h.mac && mac in devices ==> devices[mac] == old(devices)[mac]
      ensures forall mac :: mac != h.mac ==> (mac in knownIdByMac <==> mac in old(knownIdByMac))
      ensures forall mac :: mac != h.mac && mac in knownIdByMac ==> knownIdByMac[mac] == old(knownIdByMac)[mac]
      ensures h.mac != "" ==>
                h.mac in devices
                && var was := if h.mac in old(devices) then old(devices)[h.mac] else NEW_DEVICE;
                   var d := devices[h.mac];
                   && d.address == address && d.port == port && d.lastSeen == now && d.status == Online
                   && d.firmware == (if h.firmware == "" then was.firmware else h.firmware)
                   && d.lastMessageId == was.lastMessageId
                   && (h.id != "" ==> d.id == h.id)
                   && (h.id == "" && was.id != "" ==> d.id == was.id)
                   && (h.id == "" && was.id == "" && h.mac in old(knownIdByMac) ==> d.id == old(knownIdByMac)[h.mac])
                   && (h.id == "" && was.id == "" && h.mac !in old(knownIdByMac) ==>
                         d.id == FallbackId(h.mac, |devices|))
                   && (d.id != was.id ==> h.mac in knownIdByMac && knownIdByMac[h.mac] == d.id)
                   && (d.id == was.id && was.id != "" ==>
                         knownIdByMac == old(knownIdByMac))
    {
      if h.mac == "" {
        return;
      }
      var dev := NEW_DEVICE;
      var count := |devices| + 1;
      if h.mac in devices {
        dev := devices[h.mac];
        count := |devices|;
      }
      dev := dev.(address := address, port := port, lastSeen := now);
      if h.firmware != "" {
        dev := dev.(firmware := h.firmware);
      }
      if h.id != "" {
        if dev.id != h.id {
          dev := dev.(id := h.id);
          knownIdByMac := knownIdByMac[h.mac := h.id];
        }
      } else if dev.id == "" {
        if h.mac in knownIdByMac {
          dev := dev.(id := knownIdByMac[h.mac]);
        } else {
          dev := dev.(id := FallbackId(h.mac, count));
          knownIdByMac := knownIdByMac[h.mac := dev.id];
        }
      }
      dev := dev.(status := Online);
      devices := devices[h.mac := dev];
    }

    method PrepareForBroadcast(id: string)
      modifies this
      ensures Now() == AfterPrepare(old(Now()), id)
      ensures activeId == id && pending && knownIdByMac == old(knownIdByMac) && summaries == old(summaries)
      ensures devices.Keys == old(devices).Keys
      ensures forall mac :: mac in devices ==>
                devices[mac] == if old(devices)[mac].status == Offline then old(devices)[mac]
                                else old(devices)[mac].(status := WaitingAck, lastMessageId := id)
    {
      hide DoneBut;
      activeId, pending := id, true;
      ghost var f := (d: Device) => Armed(d, id);
      var todo := devices.Keys;
      DoneNone(devices, f);
      while todo != {}
        invariant todo <= devices.Keys
        invariant Now() == old(Now()).(activeId := id, pending := true, devices := devices)
        invariant DoneBut(old(devices), devices, todo, f)
        decreases |todo|
      {
        var mac :| mac in todo;
        var d := devices[mac];
        DoneOne(old(devices), devices, todo, f, mac);
        if d.status != Offline {
          devices := devices[mac := d.(status := WaitingAck, lastMessageId := id)];
        }
        todo := todo - {mac};
      }
      DoneAll(old(devices), devices, f);
    }

    method FindWaiting() returns (r: bool)
      ensures r <==> AnyWaiting(Now())
    {
      var todo := devices.Keys;
      while todo != {}
        invariant todo <= devices.Keys
        invariant forall mac :: mac in devices && mac !in todo ==> devices[mac].status != WaitingAck
        decreases |todo|
      {
        var mac :| mac in todo;
        if devices[mac].status == WaitingAck {
          return true;
        }
        todo := todo - {mac};
      }
      r := false;
    }

    method HandleAck(a: AckPacket, address: string, now: int)
      modifies this
      ensures Now() == AfterAck(old(Now()), a, address, now)
      ensures a.mac !in old(devices) ==> Now() == old(Now())
      ensures activeId == old(activeId) && knownIdByMac == old(knownIdByMac)
      ensures a.mac in old(devices) ==>
                devices == old(devices)[a.mac := old(devices)[a.mac].(
                             address := address, lastSeen := now, lastMessageId := a.messageId,
                             status := if a.ok then KeyReceived else Error)]
                && if old(pending) && forall mac :: mac in devices ==> devices[mac].status != WaitingAck
                   then !pending && |summaries| == |old(summaries)| + 1
                        && summaries[..|old(summaries)|] == old(summaries)
                   else pending == old(pending) && summaries == old(summaries)
    {
      if a.mac !in devices {
        return;
      }
      var dev := devices[a.mac].(address := address, lastSeen := now, lastMessageId := a.messageId);
      if a.ok {
        dev := dev.(status := KeyReceived);
      } else {
        dev := dev.(status := Error);
      }
      devices := devices[a.mac := dev];
      if pending {
        var anyWaiting := FindWaiting();
        if !anyWaiting {
          OnAckTimeout();
        }
      }
    }

    method OnAckTimeout()
      modifies this
      ensures Now() == Summarised(old(Now()))
      ensures !old(pending) ==> Now() == old(Now())
      ensures activeId == old(activeId) && knownIdByMac == old(knownIdByMac) && !pending
      ensures devices.Keys == old(devices).Keys
      ensures old(pending) ==> forall mac :: mac in devices ==>
                devices[mac] == if old(devices)[mac].lastMessageId == activeId && old(devices)[mac].status == WaitingAck
                                then old(devices)[mac].(status := Timeout) else old(devices)[mac]
      ensures old(pending) ==>
                var was := old(devices);
                var asked := set mac | mac in was && was[mac].lastMessageId == activeId;
                summaries == old(summaries)
                             + [Summary(activeId, |asked|,
                                        |set mac | mac in asked && was[mac].status == KeyReceived|,
                                        |set mac | mac in asked && was[mac].status == Error|,
                                        |set mac | mac in asked && was[mac].status == WaitingAck|)]
    {
      if !pending {
        return;
      }
      hide Summarised, DoneBut, Tally;
      ghost var m := Now();
      pending := false;
      var targeted, received, errors, timeouts := Sweep(m);
      SummarisedIs(m, devices);
      SummarisedMeans(m);
      summaries := summaries + [Summary(activeId, targeted, received, errors, timeouts)];
    }

    /** The loop of onAckTimeout. */
    method Sweep(ghost m: Manager) returns (targeted: nat, received: nat, errors: nat, timeouts: nat)
      requires m.devices == devices && m.activeId == activeId
      modifies this`devices
      ensures DoneBut(m.devices, devices, {}, d => TimedOut(m, d))
      ensures Tally(m, {}) == Summary(activeId, targeted, received, errors, timeouts)
    {
      hide Tally, DoneBut;
      targeted, received, errors, timeouts := 0, 0, 0, 0;
      ghost var f := (d: Device) => TimedOut(m, d);
      var todo := devices.Keys;
      NoTally(m);
      DoneNone(devices, f);
      while todo != {}
        invariant todo <= devices.Keys == m.devices.Keys
        invariant DoneBut(m.devices, devices, todo, f)
        invariant Tally(m, todo) == Summary(m.activeId, targeted, received, errors, timeouts)
        decreases |todo|
      {
        var mac :| mac in todo;
        var d := devices[mac];
        TallyOne(m, todo, mac);
        DoneOne(m.devices, devices, todo, f, mac);
        if d.lastMessageId == activeId {
          targeted := targeted + 1;
          if d.status == WaitingAck {
            devices := devices[mac := d.(status := Timeout)];
            timeouts := timeouts + 1;
          } else if d.status == KeyReceived {
            received := received + 1;
          } else if d.status == Error {
            errors := errors + 1;
          }
        }
        todo := todo - {mac};
      }
    }

    method OnHeartbeatCheck(now: int, threshold: int)
      modifies this
      ensures Now() == AfterHeartbeat(old(Now()), now, threshold)
      ensures Now() == old(Now()).(devices := devices) && devices.Keys == old(devices).Keys
      ensures forall mac :: mac in devices ==>
                devices[mac] == if old(devices)[mac].status != Offline && now > old(devices)[mac].lastSeen + threshold
                                then old(devices)[mac].(status := Offline) else old(devices)[mac]
    {
      hide DoneBut;
      ghost var f := (d: Device) => Checked(d, now, threshold);
      var todo := devices.Keys;
      DoneNone(devices, f);
      while todo != {}
        invariant todo <= devices.Keys
        invariant Now() == old(Now()).(devices := devices)
        invariant DoneBut(old(devices), devices, todo, f)
        decreases |todo|
      {
        var mac :| mac in todo;
        var d := devices[mac];
        DoneOne(old(devices), devices, todo, f, mac);
        if d.status != Offline {
          if now - d.lastSeen > threshold {
            devices := devices[mac := d.(status := Offline)];
          }
        }
        todo := todo - {mac};
      }
      DoneAll(old(devices), devices, f);
    }
  }

  /** The devices and the counters of a summary, read off the devices before it. */
  lemma SummarisedMeans(m: Manager)
    requires m.pending
    ensures var after := Summarised(m);
            var was := m.devices;
            var asked := set mac | mac in was && was[mac].lastMessageId == m.activeId;
            && after.devices.Keys == was.Keys
            && (forall mac :: mac in was ==>
                  after.devices[mac] == if was[mac].lastMessageId == m.activeId && was[mac].status == WaitingAck
                                        then was[mac].(status := Timeout) else was[mac])
            && after.summaries == m.summaries
                                  + [Summary(m.activeId, |asked|,
                                             |set mac | mac in asked && was[mac].status == KeyReceived|,
                                             |set mac | mac in asked && was[mac].status == Error|,
                                             |set mac | mac in asked && was[mac].status == WaitingAck|)]
  {
    var was := m.devices;
    var asked := set mac | mac in was && was[mac].lastMessageId == m.activeId;
    assert Targets(m) == asked;
    assert TargetsAs(m, KeyReceived) == set mac | mac in asked && was[mac].status == KeyReceived;
    assert TargetsAs(m, Error) == set mac | mac in asked && was[mac].status == Error;
    assert TargetsAs(m, WaitingAck) == set mac | mac in asked && was[mac].status == WaitingAck;
  }

  /** The counters when only the devices of `todo` are still to be looked at. */
  ghost function Tally(m: Manager, todo: set<string>): Summary {
    Summary(m.activeId, |Targets(m) - todo|, |TargetsAs(m, KeyReceived) - todo|, |TargetsAs(m, Error) - todo|,
            |TargetsAs(m, WaitingAck) - todo|)
  }

  /** The loop has applied `f` to all devices but those of `todo`. */
  ghost predicate DoneBut(before: map<string, Device>, devices: map<string, Device>, todo: set<string>,
                          f: Device -> Device) {
    devices.Keys == before.Keys
    && forall mac :: mac in devices ==> devices[mac] == if mac in todo then before[mac] else f(before[mac])
  }

  lemma DoneOne(before: map<string, Device>, devices: map<string, Device>, todo: set<string>, f: Device -> Device,
                mac: string)
    requires DoneBut(before, devices, todo, f) && mac in todo && mac in devices
    ensures mac in before && devices[mac] == before[mac]
    ensures f(devices[mac]) == devices[mac] ==> DoneBut(before, devices, todo - {mac}, f)
    ensures DoneBut(before, devices[mac := f(devices[mac])], todo - {mac}, f)
    ensures devices[mac := f(devices[mac])].Keys == devices.Keys
  {
  }

  lemma DoneNone(devices: map<string, Device>, f: Device -> Device)
    ensures DoneBut(devices, devices, devices.Keys, f)
  {
  }

  lemma DoneAll(before: map<string, Device>, devices: map<string, Device>, f: Device -> Device)
    requires DoneBut(before, devices, {}, f)
    ensures devices == map mac | mac in before :: f(before[mac])
  {
  }

  lemma SummarisedIs(m: Manager, devices: map<string, Device>)
    requires m.pending && DoneBut(m.devices, devices, {}, d => TimedOut(m, d))
    ensures Summarised(m) == m.(pending := false, devices := devices, summaries := m.summaries + [Tally(m, {})])
  {
    hide Tally;
    TallyAll(m);
    DoneAll(m.devices, devices, d => TimedOut(m, d));
  }

  lemma NoTally(m: Manager)
    ensures Tally(m, m.devices.Keys) == Summary(m.activeId, 0, 0, 0, 0)
  {
  }

  lemma TallyOne(m: Manager, todo: set<string>, mac: string)
    requires mac in todo && mac in m.devices
    ensures var t, u := Tally(m, todo), Tally(m, todo - {mac});
            var d := m.devices[mac];
            u == if d.lastMessageId != m.activeId then t
                 else if d.status == WaitingAck then t.(targeted := t.targeted + 1, timeouts := t.timeouts + 1)
                 else if d.status == KeyReceived then t.(targeted := t.targeted + 1, received := t.received + 1)
                 else if d.status == Error then t.(targeted := t.targeted + 1, errors := t.errors + 1)
                 else t.(targeted := t.targeted + 1)
  {
    CountOne(Targets(m), todo, mac);
    CountOne(TargetsAs(m, KeyReceived), todo, mac);
    CountOne(TargetsAs(m, Error), todo, mac);
    CountOne(TargetsAs(m, WaitingAck), todo, mac);
  }

  lemma TallyAll(m: Manager)
    ensures Tally(m, {})
            == Summary(m.activeId, |Targets(m)|, |TargetsAs(m, KeyReceived)|, |TargetsAs(m, Error)|,
                       |TargetsAs(m, WaitingAck)|)
  {
  }

  lemma CountOne(s: set<string>, todo: set<string>, mac: string)
    requires mac in todo
    ensures |s - (todo - {mac})| == |s - todo| + if mac in s then 1 else 0
  {
    if mac in s {
      assert s - (todo - {mac}) == (s - todo) + {mac};
    } else {
      assert s - (todo - {mac}) == s - todo;
    }
  }

  // ---------------------------------------------------------------------------
  // Runs
  // ---------------------------------------------------------------------------

  /** What has happened so far, for the statements only. When the last broadcast was armed, `asked` were not offline,
      and `stale` were, but had the broadcast's id already; `answers` are the last message ids acknowledged since. */
  datatype World = World(
    m: Manager, acks: set<AckPacket>, prepared: seq<string>, asked: set<string>, stale: set<string>,
    answers: map<string, string>)

  datatype Event =
    | Hello(h: HelloPacket, address: string, port: nat, now: int)
    | Prepare(id: string)
    | Ack(a: AckPacket, address: string, now: int)
    | AckTimeout
    | Heartbeat(now: int, threshold: int)

  function Next(w: World, e: Event): World {
    match e
    case Hello(h, address, port, now) => w.(m := AfterHello(w.m, h, address, port, now))
    case Prepare(id) =>
      var was := w.m.devices;
      var asked := set mac | mac in was && was[mac].status != Offline;
      var stale := set mac | mac in was && was[mac].status == Offline && was[mac].lastMessageId == id;
      World(AfterPrepare(w.m, id), w.acks, w.prepared + [id], asked, stale, map[])
    case Ack(a, address, now) =>
      w.(m := AfterAck(w.m, a, address, now), acks := w.acks + {a},
         answers := if a.mac in w.m.devices then w.answers[a.mac := a.messageId] else w.answers)
    case AckTimeout => w.(m := Summarised(w.m))
    case Heartbeat(now, threshold) => w.(m := AfterHeartbeat(w.m, now, threshold))
  }

  function Run(w: World, es: seq<Event>): World {
    if es == [] then w else Next(Run(w, es[..|es| - 1]), es[|es| - 1])
  }

  /** Broadcast ids are not empty. */
  ghost predicate Named(es: seq<Event>) {
    forall i :: 0 <= i < |es| && es[i].Prepare? ==> es[i].id != ""
  }

  function Start(historical: map<string, string>): World {
    World(Manager(map[], historical, "", false, []), {}, [], {}, {}, map[])
  }

  // ---------------------------------------------------------------------------
  // The invariant
  // ---------------------------------------------------------------------------

  /** A verdict is the one received for exactly the stored id. */
  ghost predicate DeviceOk(w: World, mac: string)
    requires mac in w.m.devices
  {
    var d := w.m.devices[mac];
    && (d.status == WaitingAck ==> w.m.pending && d.lastMessageId == w.m.activeId)
    && (d.status == Timeout ==> !w.m.pending)
    && (d.status == KeyReceived ==> AckPacket(mac, d.lastMessageId, true) in w.acks)
    && (d.status == Error ==> AckPacket(mac, d.lastMessageId, false) in w.acks)
    && d.id != "" && mac in w.m.knownIdByMac && w.m.knownIdByMac[mac] == d.id
    && (w.prepared != [] ==>
          (d.lastMessageId == w.m.activeId <==>
           if mac in w.answers then w.answers[mac] == w.m.activeId else mac in w.asked || mac in w.stale))
  }

  function Count(ids: seq<string>, id: string): nat {
    if ids == [] then 0 else Count(ids[..|ids| - 1], id) + if ids[|ids| - 1] == id then 1 else 0
  }

  function IdsOf(summaries: seq<Summary>): seq<string> {
    seq(|summaries|, i requires 0 <= i < |summaries| => summaries[i].messageId)
  }

  /** A summary is owed for the pending broadcast only. */
  ghost predicate Owed(w: World, id: string) {
    Count(IdsOf(w.m.summaries), id) + (if w.m.pending && w.m.activeId == id then 1 else 0) <= Count(w.prepared, id)
  }

  ghost predicate Inv(w: World) {
    (forall mac :: mac in w.m.devices ==> DeviceOk(w, mac))
    && (forall mac :: mac in w.m.knownIdByMac ==> w.m.knownIdByMac[mac] != "")
    && (forall id :: Owed(w, id))
    && (w.prepared == [] ==> !w.m.pending)
    && (w.prepared != [] ==> w.m.activeId != "")
    && (forall mac :: mac in w.answers || (w.prepared != [] && (mac in w.asked || mac in w.stale)) ==>
          mac in w.m.devices)
  }

  lemma StartOk(historical: map<string, string>)
    requires forall mac :: mac in historical ==> historical[mac] != ""
    ensures Inv(Start(historical))
  {
  }

  lemma HelloKeeps(w: World, h: HelloPacket, address: string, port: nat, now: int)
    requires Inv(w)
    ensures Inv(Next(w, Hello(h, address, port, now)))
  {
    hide Count, FallbackId, Owed, DeviceOk;
    var v := Next(w, Hello(h, address, port, now));
    FallbackIsNamed(h.mac, |w.m.devices| + 1);
    FallbackIsNamed(h.mac, |w.m.devices|);
    forall mac | mac in v.m.devices
      ensures DeviceOk(v, mac)
    {
      HelloDeviceOk(w, h, address, port, now, mac);
    }
    forall id
      ensures Owed(v, id)
    {
      SameOwed(w, v, id);
    }
  }

  lemma HelloDeviceOk(w: World, h: HelloPacket, address: string, port: nat, now: int, mac: string)
    requires Inv(w) && mac in Next(w, Hello(h, address, port, now)).m.devices
    ensures DeviceOk(Next(w, Hello(h, address, port, now)), mac)
  {
    hide AfterHello, Count, Owed;
    AfterHelloIs(w.m, h, address, port, now, mac);
    if mac in w.m.devices {
      assert DeviceOk(w, mac);
    }
  }

  /** A hello names the device, in both tables alike, and leaves its last message id and the other devices alone. */
  lemma AfterHelloIs(m: Manager, h: HelloPacket, address: string, port: nat, now: int, mac: string)
    requires forall known :: known in m.knownIdByMac ==> m.knownIdByMac[known] != ""
    requires forall d :: d in m.devices ==>
               m.devices[d].id != "" && d in m.knownIdByMac && m.knownIdByMac[d] == m.devices[d].id
    ensures var n := AfterHello(m, h, address, port, now);
            && n == m.(devices := n.devices, knownIdByMac := n.knownIdByMac)
            && (mac in n.devices ==> n.devices[mac].id != "" && mac in n.knownIdByMac
                                     && n.knownIdByMac[mac] == n.devices[mac].id
                                     && if mac != h.mac || mac == "" then
                                          mac in m.devices && n.devices[mac] == m.devices[mac]
                                        else n.devices[mac].status == Online && n.devices[mac].lastMessageId
                                             == if mac in m.devices then m.devices[mac].lastMessageId else "")
  {
    hide FallbackId;
    FallbackIsNamed(h.mac, |m.devices|);
    FallbackIsNamed(h.mac, |m.devices| + 1);
  }

  lemma SameOwed(w: World, v: World, id: string)
    requires Owed(w, id) && v.m.summaries == w.m.summaries && v.prepared == w.prepared
    requires v.m.pending == w.m.pending && v.m.activeId == w.m.activeId
    ensures Owed(v, id)
  {
  }

  lemma FallbackIsNamed(mac: string, count: nat)
    ensures FallbackId(mac, count) != ""
  {
  }

  lemma PrepareKeeps(w: World, id: string)
    requires Inv(w) && id != ""
    ensures Inv(Next(w, Prepare(id)))
  {
    var v := Next(w, Prepare(id));
    forall mac | mac in v.m.devices
      ensures DeviceOk(v, mac)
    {
      assert DeviceOk(w, mac);
    }
    forall other
      ensures Owed(v, other)
    {
      assert Owed(w, other);
      assert v.prepared[..|v.prepared| - 1] == w.prepared;
    }
  }

  lemma SummaryKeeps(w: World)
    requires Inv(w)
    ensures Inv(w.(m := Summarised(w.m)))
  {
    hide Targets, TargetsAs;
    var v := w.(m := Summarised(w.m));
    forall mac | mac in v.m.devices
      ensures DeviceOk(v, mac)
    {
      assert DeviceOk(w, mac);
    }
    forall id
      ensures Owed(v, id)
    {
      assert Owed(w, id);
      if w.m.pending {
        var ids := IdsOf(v.m.summaries);
        assert ids[..|ids| - 1] == IdsOf(w.m.summaries);
      }
    }
  }

  lemma AnswerKeeps(w: World, a: AckPacket, address: string, now: int)
    requires Inv(w) && a.mac in w.m.devices
    ensures Inv(w.(m := Answered(w.m, a, address, now), acks := w.acks + {a},
                   answers := w.answers[a.mac := a.messageId]))
  {
    hide Count;
    var v := w.(m := Answered(w.m, a, address, now), acks := w.acks + {a}, answers := w.answers[a.mac := a.messageId]);
    forall mac | mac in v.m.devices
      ensures DeviceOk(v, mac)
    {
      assert DeviceOk(w, mac);
      assert a.ok ==> a == AckPacket(a.mac, a.messageId, true);
      assert !a.ok ==> a == AckPacket(a.mac, a.messageId, false);
    }
    forall id
      ensures Owed(v, id)
    {
      assert Owed(w, id);
    }
  }

  lemma UnknownAckKeeps(w: World, a: AckPacket)
    requires Inv(w)
    ensures Inv(w.(acks := w.acks + {a}))
  {
    hide Count;
    var v := w.(acks := w.acks + {a});
    forall mac | mac in v.m.devices
      ensures DeviceOk(v, mac)
    {
      assert DeviceOk(w, mac);
    }
    forall id
      ensures Owed(v, id)
    {
      assert Owed(w, id);
    }
  }

  lemma HeartbeatKeeps(w: World, now: int, threshold: int)
    requires Inv(w)
    ensures Inv(Next(w, Heartbeat(now, threshold)))
  {
    hide Count;
    var v := Next(w, Heartbeat(now, threshold));
    forall mac | mac in v.m.devices
      ensures DeviceOk(v, mac)
    {
      assert DeviceOk(w, mac);
    }
    forall id
      ensures Owed(v, id)
    {
      assert Owed(w, id);
    }
  }

  lemma EventKeeps(w: World, e: Event)
    requires Inv(w) && (e.Prepare? ==> e.id != "")
    ensures Inv(Next(w, e))
  {
    hide Inv, AfterHello, AfterPrepare, AfterHeartbeat, Summarised, AnyWaiting;
    match e
    case Hello(h, address, port, now) => HelloKeeps(w, h, address, port, now);
    case Prepare(id) => PrepareKeeps(w, id);
    case Ack(a, address, now) =>
      if a.mac in w.m.devices {
        AnswerKeeps(w, a, address, now);
        SummaryKeeps(w.(m := Answered(w.m, a, address, now), acks := w.acks + {a},
                        answers := w.answers[a.mac := a.messageId]));
      } else {
        UnknownAckKeeps(w, a);
      }
    case AckTimeout => SummaryKeeps(w);
    case Heartbeat(now, threshold) => HeartbeatKeeps(w, now, threshold);
  }

  lemma {:induction false} RunKeeps(historical: map<string, string>, es: seq<Event>)
    requires (forall mac :: mac in historical ==> historical[mac] != "") && Named(es)
    ensures Inv(Run(Start(historical), es))
    decreases |es|
  {
    hide Inv, Next;
    if es == [] {
      StartOk(historical);
    } else {
      RunKeeps(historical, es[..|es| - 1]);
      EventKeeps(Run(Start(historical), es[..|es| - 1]), es[|es| - 1]);
    }
  }

  // ---------------------------------------------------------------------------
  // Main results
  // ---------------------------------------------------------------------------

  /** In every reachable state a waiting device waits for the pending broadcast and carries its id, a verdict was
      received from that device for exactly the stored id, no device is timed out while a broadcast is pending, and the
      device has the id that is known for its address. */
  lemma StatusesAreExplained(historical: map<string, string>, es: seq<Event>, mac: string)
    requires (forall m :: m in historical ==> historical[m] != "") && Named(es)
    requires mac in Run(Start(historical), es).m.devices
    ensures var w := Run(Start(historical), es);
            var d := w.m.devices[mac];
            && (d.status == WaitingAck ==> w.m.pending && d.lastMessageId == w.m.activeId)
            && (d.status == KeyReceived ==> AckPacket(mac, d.lastMessageId, true) in w.acks)
            && (d.status == Error ==> AckPacket(mac, d.lastMessageId, false) in w.acks)
            && (d.status == Timeout ==> !w.m.pending)
            && d.id != "" && mac in w.m.knownIdByMac && w.m.knownIdByMac[mac] == d.id
  {
    hide Run;
    RunKeeps(historical, es);
    assert DeviceOk(Run(Start(historical), es), mac);
  }

  lemma {:induction false} TwiceIsTwo(ids: seq<string>, i: nat, j: nat)
    requires i < j < |ids| && ids[i] == ids[j]
    ensures Count(ids, ids[j]) >= 2
    decreases |ids|
  {
    var init := ids[..|ids| - 1];
    if j < |init| {
      TwiceIsTwo(init, i, j);
    } else {
      OnceIsOne(init, i);
    }
  }

  lemma {:induction false} OnceIsOne(ids: seq<string>, i: nat)
    requires i < |ids|
    ensures Count(ids, ids[i]) >= 1
    decreases |ids|
  {
    if i < |ids| - 1 {
      OnceIsOne(ids[..|ids| - 1], i);
    }
  }

  lemma {:induction false} DistinctIsOne(ids: seq<string>, id: string)
    requires forall i, j :: 0 <= i < j < |ids| ==> ids[i] != ids[j]
    ensures Count(ids, id) <= 1
    ensures id !in ids ==> Count(ids, id) == 0
    decreases |ids|
  {
    if ids != [] {
      var init := ids[..|ids| - 1];
      DistinctIsOne(init, id);
      assert ids == init + [ids[|ids| - 1]];
    }
  }

  /** With fresh message ids no broadcast is summarised twice, and none that was not sent. */
  lemma EachBroadcastIsSummarisedOnce(historical: map<string, string>, es: seq<Event>)
    requires (forall m :: m in historical ==> historical[m] != "") && Named(es)
    requires var ids := Run(Start(historical), es).prepared; forall i, j :: 0 <= i < j < |ids| ==> ids[i] != ids[j]
    ensures var w := Run(Start(historical), es);
            (forall i, j :: 0 <= i < j < |w.m.summaries| ==> w.m.summaries[i].messageId != w.m.summaries[j].messageId)
            && (forall i :: 0 <= i < |w.m.summaries| ==> w.m.summaries[i].messageId in w.prepared)
  {
    hide Run, DeviceOk, Count;
    RunKeeps(historical, es);
    var w := Run(Start(historical), es);
    var ids := IdsOf(w.m.summaries);
    forall i | 0 <= i < |ids|
      ensures w.m.summaries[i].messageId in w.prepared
      ensures forall j :: i < j < |ids| ==> ids[i] != ids[j]
    {
      assert Owed(w, ids[i]);
      OnceIsOne(ids, i);
      DistinctIsOne(w.prepared, ids[i]);
      forall j | i < j < |ids|
        ensures ids[i] != ids[j]
      {
        if ids[i] == ids[j] {
          TwiceIsTwo(ids, i, j);
        }
      }
    }
    assert forall i :: 0 <= i < |ids| ==> ids[i] == w.m.summaries[i].messageId;
  }

  /** The counters of the broadcast that has just been summarised, read off the devices. */
  ghost predicate AddsUp(m: Manager, s: Summary) {
    s.messageId == m.activeId && s.targeted == |Targets(m)|
    && s.received == |TargetsAs(m, KeyReceived)| && s.errors == |TargetsAs(m, Error)|
    && s.timeouts == |TargetsAs(m, Timeout)|
    && s.targeted == s.received + s.errors + s.timeouts + |TargetsAs(m, Online)| + |TargetsAs(m, Offline)|
  }

  lemma SummaryAddsUp(w: World)
    requires Inv(w) && w.m.pending
    ensures var after := Summarised(w.m);
            AddsUp(after, after.summaries[|w.m.summaries|]) && after.summaries[..|w.m.summaries|] == w.m.summaries
            && (!AnyWaiting(w.m) ==> after.summaries[|w.m.summaries|].timeouts == 0)
  {
    hide Targets, TargetsAs, Inv;
    SetsAfterSummary(w);
    SplitByStatus(Summarised(w.m));
  }

  /** Summarising only turns the waiting targets into timed out ones. */
  lemma SetsAfterSummary(w: World)
    requires Inv(w) && w.m.pending
    ensures var after := Summarised(w.m);
            && Targets(after) == Targets(w.m)
            && TargetsAs(after, KeyReceived) == TargetsAs(w.m, KeyReceived)
            && TargetsAs(after, Error) == TargetsAs(w.m, Error)
            && TargetsAs(after, Timeout) == TargetsAs(w.m, WaitingAck)
            && TargetsAs(after, WaitingAck) == {}
            && (!AnyWaiting(w.m) ==> |TargetsAs(w.m, WaitingAck)| == 0)
  {
    hide Inv, Summarised, Stamped, StampedAs, AnyWaiting;
    var after := Summarised(w.m);
    forall mac
      ensures mac in after.devices <==> mac in w.m.devices
      ensures Stamped(after, mac) == Stamped(w.m, mac) && !StampedAs(after, mac, WaitingAck)
      ensures StampedAs(after, mac, KeyReceived) == StampedAs(w.m, mac, KeyReceived)
      ensures StampedAs(after, mac, Error) == StampedAs(w.m, mac, Error)
      ensures StampedAs(after, mac, Timeout) == StampedAs(w.m, mac, WaitingAck)
    {
      SummarisedDevice(w, mac);
    }
    if !AnyWaiting(w.m) {
      NobodyWaits(w.m);
    }
  }

  lemma SummarisedDevice(w: World, mac: string)
    requires Inv(w) && w.m.pending
    ensures var after := Summarised(w.m);
            && (mac in after.devices <==> mac in w.m.devices)
            && Stamped(after, mac) == Stamped(w.m, mac) && !StampedAs(after, mac, WaitingAck)
            && StampedAs(after, mac, KeyReceived) == StampedAs(w.m, mac, KeyReceived)
            && StampedAs(after, mac, Error) == StampedAs(w.m, mac, Error)
            && StampedAs(after, mac, Timeout) == StampedAs(w.m, mac, WaitingAck)
  {
    hide Targets, TargetsAs, Owed;
    if mac in w.m.devices {
      assert DeviceOk(w, mac);
    }
  }

  lemma NobodyWaits(m: Manager)
    requires !AnyWaiting(m)
    ensures TargetsAs(m, WaitingAck) == {}
  {
  }

  lemma SplitByStatus(m: Manager)
    requires TargetsAs(m, WaitingAck) == {}
    ensures |Targets(m)| == |TargetsAs(m, KeyReceived)| + |TargetsAs(m, Error)| + |TargetsAs(m, Timeout)|
                            + |TargetsAs(m, Online)| + |TargetsAs(m, Offline)|
  {
    var a, b, c, d, e := TargetsAs(m, KeyReceived), TargetsAs(m, Error), TargetsAs(m, Timeout), TargetsAs(m, Online),
                         TargetsAs(m, Offline);
    hide Targets, TargetsAs;
    EachHasAStatus(m);
    StatusesApart(m);
    SizeOfUnion(a, b);
    SizeOfUnion(a + b, c);
    SizeOfUnion(a + b + c, d);
    SizeOfUnion(a + b + c + d, e);
  }

  lemma EachHasAStatus(m: Manager)
    requires TargetsAs(m, WaitingAck) == {}
    ensures Targets(m) == TargetsAs(m, KeyReceived) + TargetsAs(m, Error) + TargetsAs(m, Timeout)
                          + TargetsAs(m, Online) + TargetsAs(m, Offline)
  {
    forall mac | mac in Targets(m)
      ensures mac in TargetsAs(m, m.devices[mac].status) && m.devices[mac].status != WaitingAck
    {
      assert mac !in TargetsAs(m, WaitingAck);
    }
  }

  lemma StatusesApart(m: Manager)
    ensures forall s, t :: s != t ==> TargetsAs(m, s) !! TargetsAs(m, t)
  {
  }

  lemma SizeOfUnion(a: set<string>, b: set<string>)
    requires a !! b
    ensures |a + b| == |a| + |b|
  {
  }

  /** Whenever a summary comes out: its target count is what was received, refused and timed out plus the targets that
      said hello again or went offline; it has no timeouts when the last answer brought it out early; and a device is a
      target, that is, carries the broadcast's id, exactly if its last answer since was for it or, having not answered,
      it was not offline when the broadcast went out or was and had that id already. */
  lemma EverySummaryIsExplained(historical: map<string, string>, es: seq<Event>, e: Event)
    requires (forall m :: m in historical ==> historical[m] != "") && Named(es) && (e.Prepare? ==> e.id != "")
    requires |Next(Run(Start(historical), es), e).m.summaries| > |Run(Start(historical), es).m.summaries|
    ensures var w := Next(Run(Start(historical), es), e);
            var s := w.m.summaries[|w.m.summaries| - 1];
            && AddsUp(w.m, s) && (e.Ack? ==> s.timeouts == 0)
            && forall mac :: mac in w.m.devices ==>
                 (w.m.devices[mac].lastMessageId == s.messageId <==>
                  if mac in w.answers then w.answers[mac] == s.messageId else mac in w.asked || mac in w.stale)
  {
    hide Run, AddsUp, AnyWaiting, Inv;
    RunKeeps(historical, es);
    var v := Run(Start(historical), es);
    EventKeeps(v, e);
    if e.Ack? {
      AnswerKeeps(v, e.a, e.address, e.now);
      SummaryAddsUp(v.(m := Answered(v.m, e.a, e.address, e.now), acks := v.acks + {e.a},
                       answers := v.answers[e.a.mac := e.a.messageId]));
    } else {
      SummaryAddsUp(v);
    }
    TargetsExplained(v, e);
  }

  lemma TargetsExplained(v: World, e: Event)
    requires Inv(v) && Inv(Next(v, e)) && |Next(v, e).m.summaries| > |v.m.summaries|
    ensures var w := Next(v, e);
            forall mac :: mac in w.m.devices ==>
              (w.m.devices[mac].lastMessageId == w.m.activeId <==>
               if mac in w.answers then w.answers[mac] == w.m.activeId else mac in w.asked || mac in w.stale)
  {
    hide AnyWaiting;
    var w := Next(v, e);
    forall mac | mac in w.m.devices
      ensures w.m.devices[mac].lastMessageId == w.m.activeId <==>
              if mac in w.answers then w.answers[mac] == w.m.activeId else mac in w.asked || mac in w.stale
    {
      assert DeviceOk(w, mac);
    }
  }
}
