/** Mesh packets and their relaying: buildPacket, verifyPacket and handleSensorData of src/network/network_manager.cpp
    with the layout of src/datapacket. The ROM CRC32 is a function of the covered octets.
  */
module Relay {
  import opened Bytes
  import opened Wire

  const MAGIC: byte := 0xA5
  const VERSION: byte := 1
  const TYPE_SENSOR_DATA: byte := 0x03
  const NODEID_LEN: nat := 8
  const HEADER: nat := 11
  const MAX_PAYLOAD: nat := 128
  const MAX_PACKET: nat := 143
  const PATH: nat := 29        // DP_TLM_OFF_PATH
  const PATH_LEN: nat := 32
  const PATH_END: nat := 61
  const MIN_TELEMETRY: nat := 74   // DP_OFFSET_PAYLOAD + DP_TLM_PAYLOAD_SIZE
  const GT: byte := 0x3E
  const LETTER_M: byte := 0x4D
  const LETTER_N: byte := 0x4E
  const LETTER_R: byte := 0x52

  type Crc = bytes -> nat

  function Cut(s: bytes, n: nat): bytes {
    s[..Min(|s|, n)]
  }

  function Zeros(n: nat): (z: bytes)
    ensures |z| == n
  {
    seq(n, _ => 0)
  }

  /** strncpy into a cleared field of `n` octets. */
  function Padded(s: bytes, n: nat): (f: bytes)
    ensures |f| == n
  {
    Cut(s, n) + Zeros(n - |Cut(s, n)|)
  }

  /** A C string: up to the first zero. */
  function CStr(s: bytes): bytes {
    if s == [] || s[0] == 0 then [] else [s[0]] + CStr(s[1..])
  }

  // ---------------------------------------------------------------------------
  // Packets
  // ---------------------------------------------------------------------------

  /** verifyPacket. */
  predicate Verified(p: bytes, crc: Crc) {
    |p| >= HEADER + 4 && p[0] == MAGIC && p[1] == VERSION && p[|p| - 4..] == Le(crc(p[..|p| - 4]), 4)
  }

  function Sealed(covered: bytes, crc: Crc): bytes {
    covered + Le(crc(covered), 4)
  }

  function Packet(kind: byte, nodeId: bytes, payload: bytes, crc: Crc): bytes {
    Sealed([MAGIC, VERSION, kind] + Padded(nodeId, NODEID_LEN) + Cut(payload, MAX_PAYLOAD), crc)
  }

  /** buildPacket: nothing is built when the buffer is too small. */
  method BuildPacket(kind: byte, nodeId: bytes, payload: bytes, crc: Crc, out: array<byte>) returns (total: nat)
    requires 0 !in nodeId
    modifies out
    ensures var size := |Packet(kind, nodeId, payload, crc)|; total == if out.Length < size then 0 else size
    ensures total > 0 ==> out[..total] == Packet(kind, nodeId, payload, crc)
    ensures total == 0 ==> out[..] == old(out[..])
  {
    var payloadLen := Min(|payload|, MAX_PAYLOAD);
    total := HEADER + payloadLen + 4;
    if out.Length < total {
      return 0;
    }
    out[0], out[1], out[2] := MAGIC, VERSION, kind;
    PutField(out, 3, nodeId, NODEID_LEN);
    for i := 0 to payloadLen
      invariant out[..HEADER + i] == [MAGIC, VERSION, kind] + Padded(nodeId, NODEID_LEN) + payload[..i]
    {
      out[HEADER + i] := payload[i];
      assert out[..HEADER + i + 1] == out[..HEADER + i] + [payload[i]];
    }
    Seal(out, total, crc);
  }

  /** memset and strncpy of one field. */
  method PutField(out: array<byte>, at: nat, s: bytes, n: nat)
    requires at + n <= out.Length
    modifies out
    ensures out[..at] == old(out[..at]) && out[at..at + n] == Padded(s, n) && out[at + n..] == old(out[at + n..])
  {
    for i := 0 to n
      invariant forall k :: 0 <= k < out.Length && !(at <= k < at + i) ==> out[k] == old(out[k])
      invariant forall k :: at <= k < at + i ==> out[k] == 0
    {
      out[at + i] := 0;
    }
    for i := 0 to Min(|s|, n)
      invariant forall k :: 0 <= k < out.Length && !(at <= k < at + n) ==> out[k] == old(out[k])
      invariant forall k :: at <= k < at + n ==> out[k] == if k - at < i then s[k - at] else 0
    {
      out[at + i] := s[i];
    }
  }

  /** The CRC of everything in front of the last four octets goes into them. */
  method Seal(buf: array<byte>, len: nat, crc: Crc)
    requires 4 <= len <= buf.Length
    modifies buf
    ensures buf[..len] == Sealed(old(buf[..len - 4]), crc)
  {
    var covered := buf[..len - 4];
    var c := Le(crc(covered), 4);
    buf[len - 4], buf[len - 3], buf[len - 2], buf[len - 1] := c[0], c[1], c[2], c[3];
    assert buf[..len - 4] == covered;
    assert buf[len - 4..len] == c;
    assert buf[..len] == buf[..len - 4] + buf[len - 4..len];
  }

  lemma SealedVerifies(covered: bytes, crc: Crc)
    requires |covered| >= HEADER && covered[0] == MAGIC && covered[1] == VERSION
    ensures Verified(Sealed(covered, crc), crc)
  {
  }

  /** Where everything stands in a packet: magic and version, type, node id, payload, and the CRC of all that, lowest
      octet first. */
  lemma PacketLayout(kind: byte, nodeId: bytes, payload: bytes, crc: Crc)
    requires |nodeId| <= 8 && |payload| <= 128
    ensures var p, n := Packet(kind, nodeId, payload, crc), |payload|;
            && |p| == 15 + n && p[0] == 0xA5 && p[1] == 1 && p[2] == kind && p[3..3 + |nodeId|] == nodeId
            && (forall k :: 3 + |nodeId| <= k < 11 ==> p[k] == 0) && p[11..11 + n] == payload
            && var c := crc(p[..11 + n]);
               p[11 + n] == c % 0x100 && p[12 + n] == c / 0x100 % 0x100
               && p[13 + n] == c / 0x100 / 0x100 % 0x100 && p[14 + n] == c / 0x100 / 0x100 / 0x100 % 0x100
  {
    var covered := [MAGIC, VERSION, kind] + Padded(nodeId, NODEID_LEN) + Cut(payload, MAX_PAYLOAD);
    assert Packet(kind, nodeId, payload, crc)[..|covered|] == covered;
    FourOctets(crc(covered));
  }

  lemma FourOctets(c: nat)
    ensures Le(c, 4) == [c % 256, c / 256 % 256, c / 256 / 256 % 256, c / 256 / 256 / 256 % 256]
  {
    assert Le(c / 256 / 256 / 256, 1) == [c / 256 / 256 / 256 % 256];
    assert Le(c / 256 / 256, 2) == [c / 256 / 256 % 256] + Le(c / 256 / 256 / 256, 1);
    assert Le(c / 256, 3) == [c / 256 % 256] + Le(c / 256 / 256, 2);
  }

  /** A packet verifies at its receiver, fits the buffers and gives back what was put into it. */
  lemma PacketReads(kind: byte, nodeId: bytes, payload: bytes, crc: Crc)
    requires |nodeId| <= NODEID_LEN && 0 !in nodeId
    ensures var p := Packet(kind, nodeId, payload, crc);
            Verified(p, crc) && |p| <= MAX_PACKET && p[2] == kind && CStr(p[3..HEADER]) == nodeId
            && p[HEADER..|p| - 4] == Cut(payload, MAX_PAYLOAD)
  {
    hide CStr;
    var covered := [MAGIC, VERSION, kind] + Padded(nodeId, NODEID_LEN) + Cut(payload, MAX_PAYLOAD);
    SealedVerifies(covered, crc);
    var p := Packet(kind, nodeId, payload, crc);
    assert p[3..HEADER] == Padded(nodeId, NODEID_LEN);
    PaddedReads(nodeId, NODEID_LEN);
    assert p[HEADER..|p| - 4] == Cut(payload, MAX_PAYLOAD);
    assert Cut(nodeId, NODEID_LEN) == nodeId;
  }

  lemma {:induction false} CStrOf(s: bytes, rest: bytes)
    requires 0 !in s
    ensures CStr(s + rest) == s + CStr(rest)
  {
    if s == [] {
      assert s + rest == rest;
    } else {
      assert s[0] != 0;
      assert (s + rest)[1..] == s[1..] + rest;
      CStrOf(s[1..], rest);
    }
  }

  lemma PaddedReads(s: bytes, n: nat)
    requires 0 !in s
    ensures CStr(Padded(s, n)) == Cut(s, n)
  {
    CStrOf(Cut(s, n), Zeros(n - |Cut(s, n)|));
  }

  lemma {:induction false} CStrIsPrefix(s: bytes)
    ensures CStr(s) <= s && 0 !in CStr(s)
  {
    if s != [] && s[0] != 0 {
      CStrIsPrefix(s[1..]);
    }
  }

  /** What is behind the first `n` octets does not show in the first `n` characters of the string. */
  lemma {:induction false} CStrOfPrefix(s: bytes, n: nat)
    requires n <= |s|
    ensures CStr(s[..n]) == Cut(CStr(s), n)
    decreases n
  {
    if n > 0 && s[0] != 0 {
      CStrOfPrefix(s[1..], n - 1);
      assert s[..n][1..] == s[1..][..n - 1];
    }
  }

  // ---------------------------------------------------------------------------
  // One relay
  // ---------------------------------------------------------------------------

  datatype Node = Node(master: bool, relayActive: bool, nodeId: bytes)

  predicate NodeOk(n: Node) {
    |n.nodeId| <= NODEID_LEN && 0 !in n.nodeId
  }

  function HopText(n: Node): bytes {
    [if n.master then LETTER_M else if n.relayActive then LETTER_R else LETTER_N] + n.nodeId
  }

  /** A hop is its role's letter and its id. */
  lemma HopTextIs(n: Node)
    ensures HopText(n) == Ascii(if n.master then "M" else if n.relayActive then "R" else "N") + n.nodeId
  {
  }

  /** The path a telemetry packet carries, as its readers see it. */
  function PathOf(p: bytes): bytes
    requires |p| >= MIN_TELEMETRY
  {
    CStr(p[PATH..PATH_END])
  }

  /** snprintf into 33 bytes; a master writes its own name only. */
  function NewPath(n: Node, p: bytes): bytes
    requires |p| >= MIN_TELEMETRY
  {
    if n.master then Cut(HopText(n), PATH_LEN) else Cut(HopText(n) + [GT] + CStr(p[PATH..]), PATH_LEN)
  }

  function WithPath(p: bytes, path: bytes, crc: Crc): bytes
    requires |p| >= MIN_TELEMETRY
  {
    Sealed(p[..PATH] + Padded(path, PATH_LEN) + p[PATH_END..|p| - 4], crc)
  }

  /** handleSensorData up to the forwarding; None when the packet is too short to be looked at. */
  method HandleSensorData(n: Node, p: array<byte>, len: nat, crc: Crc) returns (buf: array<byte>, forwarded: bool)
    requires NodeOk(n) && len <= p.Length && len <= MAX_PACKET
    ensures forwarded == (len >= MIN_TELEMETRY)
    ensures forwarded ==> buf.Length == MAX_PACKET && buf[..len] == WithPath(p[..len], NewPath(n, p[..len]), crc)
  {
    buf := new byte[MAX_PACKET](_ => 0);
    if len < MIN_TELEMETRY {
      return buf, false;
    }
    var self := HopText(n);
    if !n.master {
      var e := StrEnd(p, PATH, len);
      assert p[..len][PATH..] == p[PATH..len];
      self := self + [GT] + p[PATH..e];
    }
    self := Cut(self, PATH_LEN);
    for i := 0 to len
      invariant buf[..i] == p[..i]
    {
      buf[i] := p[i];
    }
    assert buf[..len] == p[..len];
    ReplacePath(buf, len, self, crc);
    forwarded := true;
  }

  method ReplacePath(buf: array<byte>, len: nat, path: bytes, crc: Crc)
    requires MIN_TELEMETRY <= len <= buf.Length
    modifies buf
    ensures buf[..len] == WithPath(old(buf[..len]), path, crc)
  {
    hide Padded, Le;
    ghost var tail := buf[PATH_END..][..len - 4 - PATH_END];
    PutField(buf, PATH, path, PATH_LEN);
    assert buf[PATH_END..len - 4] == buf[PATH_END..][..len - 4 - PATH_END] == tail;
    assert buf[..len - 4] == buf[..PATH] + buf[PATH..PATH_END] + buf[PATH_END..len - 4];
    assert old(buf[..len])[..PATH] == old(buf[..PATH]) && old(buf[..len])[PATH_END..len - 4] == tail;
    Seal(buf, len, crc);
  }

  lemma CStrStep(s: bytes)
    ensures CStr(s) == if s == [] || s[0] == 0 then [] else [s[0]] + CStr(s[1..])
  {
  }

  method StrEnd(p: array<byte>, from: nat, len: nat) returns (e: nat)
    requires from <= len <= p.Length
    ensures from <= e <= len && p[from..e] == CStr(p[from..len])
  {
    hide CStr;
    ghost var s := p[from..len];
    e := from;
    while e < len && p[e] != 0
      invariant from <= e <= len && CStr(s) == s[..e - from] + CStr(s[e - from..])
    {
      ghost var k := e - from;
      CStrStep(s[k..]);
      assert s[k..][1..] == s[k + 1..] && s[..k + 1] == s[..k] + [s[k]];
      e := e + 1;
    }
    CStrStep(s[e - from..]);
    assert s[..e - from] + [] == s[..e - from] == p[from..e];
  }

  // ---------------------------------------------------------------------------
  // Chains of relays
  // ---------------------------------------------------------------------------

  /** Newest hop first, as in "M0007>R0012>N0031". */
  function FullPath(hops: seq<Node>): bytes
    requires hops != []
  {
    if |hops| == 1 then HopText(hops[0]) else HopText(hops[0]) + [GT] + FullPath(hops[1..])
  }

  /** The packet after the relays, the last of which is `relays[0]`. */
  function Relayed(p: bytes, relays: seq<Node>, crc: Crc): (q: bytes)
    requires |p| >= MIN_TELEMETRY
    ensures |q| == |p|
  {
    if relays == [] then p
    else
      var q := Relayed(p, relays[1..], crc);
      WithPath(q, NewPath(relays[0], q), crc)
  }

  ghost predicate ActiveSlaves(relays: seq<Node>) {
    forall i :: 0 <= i < |relays| ==> NodeOk(relays[i]) && !relays[i].master
  }

  /** Everything but the path and the CRC is as it was. */
  ghost predicate SameReading(p: bytes, q: bytes) {
    |p| == |q| && |p| >= MIN_TELEMETRY && q[..PATH] == p[..PATH] && q[PATH_END..|q| - 4] == p[PATH_END..|p| - 4]
  }

  lemma WithPathIs(p: bytes, path: bytes, crc: Crc)
    requires |p| >= MIN_TELEMETRY && Verified(p, crc) && 0 !in path
    ensures var q := WithPath(p, path, crc);
            SameReading(p, q) && Verified(q, crc) && PathOf(q) == Cut(path, PATH_LEN)
  {
    hide CStr, Padded, Le, Sealed;
    var covered := p[..PATH] + Padded(path, PATH_LEN) + p[PATH_END..|p| - 4];
    assert covered[0] == p[0] && covered[1] == p[1];
    SealedVerifies(covered, crc);
    PaddedReads(path, PATH_LEN);
    var q := WithPath(p, path, crc);
    SealedParts(covered, crc, 0, PATH);
    SealedParts(covered, crc, PATH, PATH_END);
    SealedParts(covered, crc, PATH_END, |covered|);
    assert covered[..PATH] == p[..PATH];
    assert covered[PATH..PATH_END] == Padded(path, PATH_LEN);
    assert covered[PATH_END..] == p[PATH_END..|p| - 4];
  }

  lemma SealedParts(covered: bytes, crc: Crc, i: nat, j: nat)
    requires i <= j <= |covered|
    ensures |Sealed(covered, crc)| == |covered| + 4 && Sealed(covered, crc)[i..j] == covered[i..j]
  {
  }

  /** Truncation commutes with prepending. */
  lemma CutOfCut(head: bytes, tail: bytes, n: nat)
    requires head != []
    ensures Cut(head + Cut(tail, n), n) == Cut(head + tail, n)
  {
  }

  lemma PathStep(n: Node, q: bytes, path: bytes)
    requires |q| >= MIN_TELEMETRY && NodeOk(n) && !n.master && PathOf(q) == Cut(path, PATH_LEN)
    ensures 0 !in NewPath(n, q)
    ensures Cut(NewPath(n, q), PATH_LEN) == Cut(HopText(n) + [GT] + path, PATH_LEN)
  {
    hide CStr;
    var head := HopText(n) + [GT];
    assert q[PATH..][..PATH_LEN] == q[PATH..PATH_END];
    CStrOfPrefix(q[PATH..], PATH_LEN);
    CStrIsPrefix(q[PATH..]);
    CutOfCut(head, CStr(q[PATH..]), PATH_LEN);
    CutOfCut(head, path, PATH_LEN);
  }

  /** Through any chain of slave relays only the path and the CRC change, the packet still verifies, and the path is the
      first 32 characters of the hops in full. */
  lemma {:induction false} RelaysKeepTheReading(p: bytes, first: Node, relays: seq<Node>, crc: Crc)
    requires |p| >= MIN_TELEMETRY && Verified(p, crc) && PathOf(p) == Cut(HopText(first), PATH_LEN)
    requires ActiveSlaves(relays)
    ensures var q := Relayed(p, relays, crc);
            SameReading(p, q) && Verified(q, crc) && PathOf(q) == Cut(FullPath(relays + [first]), PATH_LEN)
    decreases |relays|
  {
    hide Verified, WithPath, PathOf, NewPath, HopText;
    if relays == [] {
      assert relays + [first] == [first];
    } else {
      var q := Relayed(p, relays[1..], crc);
      RelaysKeepTheReading(p, first, relays[1..], crc);
      assert (relays + [first])[1..] == relays[1..] + [first];
      PathStep(relays[0], q, FullPath(relays[1..] + [first]));
      WithPathIs(q, NewPath(relays[0], q), crc);
    }
  }

  /** A master does not prepend: whatever the packet went through, its path is then the master alone. */
  lemma MasterForgetsTheHops(p: bytes, master: Node, crc: Crc)
    requires |p| >= MIN_TELEMETRY && Verified(p, crc) && NodeOk(master) && master.master
    ensures var q := WithPath(p, NewPath(master, p), crc);
            SameReading(p, q) && Verified(q, crc) && PathOf(q) == HopText(master)
  {
    hide WithPath, PathOf, Verified;
    WithPathIs(p, NewPath(master, p), crc);
  }

  // ---------------------------------------------------------------------------
  // A node's own telemetry
  // ---------------------------------------------------------------------------

  /** The payload of sendOwnTelemetry: `garbage` is what the stack holds behind the string in path[33]; time, mac, the
      8 octets of the name and the values are copied as they are. */
  function OwnPayload(n: Node, time: bytes, mac: bytes, name: bytes, garbage: bytes, values: bytes): bytes {
    time + mac + name + Cut(HopText(n) + [0] + garbage, PATH_LEN) + values
  }

  lemma PathInPayload(front: bytes, path: bytes, values: bytes)
    requires |front| == PATH - HEADER && |path| == PATH_LEN
    ensures (front + path + values)[PATH - HEADER..PATH_END - HEADER] == path
  {
  }

  /** The zero behind the name ends the string, if the field is not full before it. */
  lemma OwnPathIs(hop: bytes, garbage: bytes)
    requires 0 !in hop && |garbage| == PATH_LEN
    ensures CStr(Cut(hop + [0] + garbage, PATH_LEN)) == Cut(hop, PATH_LEN)
  {
    hide CStr;
    var text := hop + [0] + garbage;
    CStrOfPrefix(text, PATH_LEN);
    CStrOf(hop, [0] + garbage);
    assert text == hop + ([0] + garbage);
    EmptyCStr(garbage);
  }

  lemma SliceOfSlice(p: bytes, a: nat, b: nat, from: nat, to: nat)
    requires a <= from <= to <= b <= |p|
    ensures p[from..to] == p[a..b][from - a..to - a]
  {
    var s, t := p[from..to], p[a..b][from - a..to - a];
    assert |s| == |t| && forall k :: 0 <= k < |s| ==> s[k] == t[k];
  }

  /** A node's own packet is where a chain starts. */
  lemma OwnPacketStartsAChain(n: Node, time: bytes, mac: bytes, name: bytes, garbage: bytes, values: bytes, crc: Crc)
    requires NodeOk(n) && |time| == 4 && |mac| == 6 && |name| == NODEID_LEN && |garbage| == PATH_LEN && |values| == 13
    ensures var p := Packet(TYPE_SENSOR_DATA, n.nodeId, OwnPayload(n, time, mac, name, garbage, values), crc);
            |p| >= MIN_TELEMETRY && Verified(p, crc) && PathOf(p) == Cut(HopText(n), PATH_LEN)
  {
    hide CStr, Packet;
    var payload := OwnPayload(n, time, mac, name, garbage, values);
    var p := Packet(TYPE_SENSOR_DATA, n.nodeId, payload, crc);
    PacketReads(TYPE_SENSOR_DATA, n.nodeId, payload, crc);
    assert |payload| == 63 && Cut(payload, MAX_PAYLOAD) == payload;
    PathInPayload(time + mac + name, Cut(HopText(n) + [0] + garbage, PATH_LEN), values);
    SliceOfSlice(p, HEADER, |p| - 4, PATH, PATH_END);
    OwnPathIs(HopText(n), garbage);
  }

  /** Where a telemetry packet has what. */
  lemma OwnPacketSays(n: Node, time: bytes, mac: bytes, name: bytes, garbage: bytes, values: bytes, crc: Crc)
    requires NodeOk(n) && |time| == 4 && |mac| == 6 && |name| == NODEID_LEN && |garbage| == PATH_LEN && |values| == 13
    ensures var p := Packet(3, n.nodeId, OwnPayload(n, time, mac, name, garbage, values), crc);
            && |p| == 78 && p[11..15] == time && p[15..21] == mac && p[21..29] == name && p[61..74] == values
            && [p[29]] == Ascii(if n.master then "M" else if n.relayActive then "R" else "N")
            && TYPE_SENSOR_DATA == 3 && MIN_TELEMETRY == 74 && MAX_PACKET == 143
  {
    hide Packet, Padded;
    var path := Cut(HopText(n) + [0] + garbage, PATH_LEN);
    var payload := OwnPayload(n, time, mac, name, garbage, values);
    PacketLayout(3, n.nodeId, payload, crc);
    var p := Packet(3, n.nodeId, payload, crc);
    FiveParts(time, mac, name, path, values);
    SliceOfSlice(p, 11, 74, 11, 15);
    SliceOfSlice(p, 11, 74, 15, 21);
    SliceOfSlice(p, 11, 74, 21, 29);
    SliceOfSlice(p, 11, 74, 61, 74);
    assert p[29] == p[11..74][18] == path[0] == HopText(n)[0];
    HopTextIs(n);
  }

  lemma FiveParts(a: bytes, b: bytes, c: bytes, d: bytes, e: bytes)
    requires |a| == 4 && |b| == 6 && |c| == 8 && |d| == 32 && |e| == 13
    ensures var t := a + b + c + d + e;
            && |t| == 63 && t[0..4] == a && t[4..10] == b && t[10..18] == c && t[18..50] == d && t[50..63] == e
            && t[18] == d[0]
  {
  }

  lemma EmptyCStr(rest: bytes)
    ensures CStr([0] + rest) == []
  {
  }
}
