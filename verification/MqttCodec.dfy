/** MQTT 3.1.1 packets of src/mqtt/mqtt_ws.cpp: the remaining-length code, CONNECT built in a fixed buffer and shifted
    in place, PUBLISH, the header decoder and the packet ids. Strings are their octets.
  */
module MqttCodec {
  import opened Bytes
  import opened Wire
  import opened WsCodec

  // ---------------------------------------------------------------------------
  // Remaining length (section 2.2.3)
  // ---------------------------------------------------------------------------

  const MAX_REMAINING: nat := 268_435_455

  function VarInt(v: nat): (s: bytes)
    ensures |s| >= 1
  {
    if v < 128 then [v] else [v % 128 + 128] + VarInt(v / 128)
  }

  /** Behind the first octet below 128 from `i` on. */
  function VarEnd(s: bytes, i: nat): (r: Option<nat>)
    requires i <= |s|
    ensures r.Some? ==> i < r.value <= |s|
    decreases |s| - i
  {
    if i == |s| then None else if s[i] < 128 then Some(i + 1) else VarEnd(s, i + 1)
  }

  function VarValue(s: bytes): nat {
    if s == [] then 0 else s[0] % 128 + 128 * VarValue(s[1..])
  }

  lemma {:induction false} VarRoundTrip(v: nat)
    ensures VarValue(VarInt(v)) == v
  {
    if v >= 128 {
      VarRoundTrip(v / 128);
      assert VarInt(v)[1..] == VarInt(v / 128);
    } else {
      assert VarInt(v)[1..] == [];
    }
  }

  lemma {:induction false} VarIntEnds(before: bytes, v: nat, rest: bytes)
    ensures VarEnd(before + VarInt(v) + rest, |before|) == Some(|before| + |VarInt(v)|)
    decreases v
  {
    if v >= 128 {
      var b: byte := v % 128 + 128;
      VarIntEnds(before + [b], v / 128, rest);
      assert before + VarInt(v) + rest == (before + [b]) + VarInt(v / 128) + rest;
    }
  }

  /** The number of octets is the table of section 2.2.3; no more than four up to the largest length. */
  lemma VarIntSize(v: nat)
    requires v <= MAX_REMAINING
    ensures |VarInt(v)| == if v <= 127 then 1 else if v <= 16_383 then 2 else if v <= 2_097_151 then 3 else 4
  {
  }

  lemma VarIntStep(v: nat)
    ensures VarInt(v) == if v / 128 > 0 then [(v % 128 + 128) as byte] + VarInt(v / 128) else [(v % 128) as byte]
  {
  }

  method PutVarInt(rl: array<byte>, value: nat) returns (n: nat)
    requires rl.Length == 4 && value <= MAX_REMAINING
    modifies rl
    ensures n <= 4 && rl[..n] == VarInt(value)
  {
    hide VarInt;
    VarIntSize(value);
    n := 0;
    var v, more := value, true;
    while more
      invariant n <= 4
      invariant more ==> n + |VarInt(v)| <= 4 && VarInt(value) == rl[..n] + VarInt(v)
      invariant !more ==> VarInt(value) == rl[..n]
      decreases if more then v + 1 else 0
    {
      VarIntStep(v);
      var b: byte := v % 128;
      v := v / 128;
      if v > 0 {
        b := b + 128;
      }
      rl[n] := b;
      assert rl[..n + 1] == rl[..n] + [b];
      n := n + 1;
      more := v > 0;
    }
  }

  // ---------------------------------------------------------------------------
  // The receive decoder
  // ---------------------------------------------------------------------------

  datatype Header = Header(kind: nat, start: nat, len: nat)

  /** `_size_t` arithmetic is modulo 2^32, in the sum that is compared as well. */
  function ReadHeader(s: bytes): Option<Header> {
    if |s| < 2 then None
    else
      match VarEnd(s, 1)
      case None => None
      case Some(e) =>
        var len := VarValue(s[1..e]) % SIZE_LIMIT;
        if |s| < (e + len) % SIZE_LIMIT then None else Some(Header(s[0] / 16, e, len))
  }

  function Pow128(n: nat): nat {
    if n == 0 then 1 else 128 * Pow128(n - 1)
  }

  lemma Shuffle(a: nat, b: nat, c: nat)
    ensures a * (b * c) == b * (a * c)
  {
  }

  lemma {:induction false} VarSnoc(s: bytes, b: byte)
    ensures VarValue(s + [b]) == VarValue(s) + b % 128 * Pow128(|s|)
  {
    if s == [] {
      assert [b][1..] == [];
    } else {
      VarSnoc(s[1..], b);
      assert (s + [b])[1..] == s[1..] + [b];
      Shuffle(128, b % 128, Pow128(|s| - 1));
    }
  }

  lemma SumInSize(x: nat, c: nat, m: nat)
    ensures (x % SIZE_LIMIT + c * (m % SIZE_LIMIT)) % SIZE_LIMIT == (x + c * m) % SIZE_LIMIT
  {
    var q := x / SIZE_LIMIT + c * (m / SIZE_LIMIT);
    var r := x % SIZE_LIMIT + c * (m % SIZE_LIMIT);
    assert c * m == c * (m / SIZE_LIMIT) * SIZE_LIMIT + c * (m % SIZE_LIMIT) by {
      assert m == m / SIZE_LIMIT * SIZE_LIMIT + m % SIZE_LIMIT;
      Distribute(c, m / SIZE_LIMIT * SIZE_LIMIT, m % SIZE_LIMIT);
      Regroup(c, m / SIZE_LIMIT, SIZE_LIMIT);
    }
    assert x + c * m == q * SIZE_LIMIT + r;
    AddMultiple(q, r);
  }

  lemma OneDigit(s: bytes, b: byte)
    ensures (VarValue(s) % SIZE_LIMIT + b % 128 * (Pow128(|s|) % SIZE_LIMIT)) % SIZE_LIMIT
              == VarValue(s + [b]) % SIZE_LIMIT
  {
    hide VarValue, Pow128;
    VarSnoc(s, b);
    SumInSize(VarValue(s), b % 128, Pow128(|s|));
  }

  lemma OnePower(n: nat)
    ensures Pow128(n) % SIZE_LIMIT * 128 % SIZE_LIMIT == Pow128(n + 1) % SIZE_LIMIT
  {
    SumInSize(0, 128, Pow128(n));
  }

  lemma NoDigit()
    ensures VarValue([]) == 0 && Pow128(0) == 1
  {
  }

  lemma Distribute(a: nat, b: nat, c: nat)
    ensures a * (b + c) == a * b + a * c
  {
  }

  lemma Regroup(a: nat, b: nat, c: nat)
    ensures a * (b * c) == a * b * c
  {
  }

  lemma AddMultiple(q: nat, r: nat)
    ensures (q * SIZE_LIMIT + r) % SIZE_LIMIT == r % SIZE_LIMIT
  {
  }

  /** One round of the loop. */
  lemma DecodeStep(s: bytes, i: nat, rl: nat, mult: nat)
    requires 1 <= i < |s| && rl == VarValue(s[1..i]) % SIZE_LIMIT && mult == Pow128(i - 1) % SIZE_LIMIT
    ensures (rl + s[i] % 128 * mult) % SIZE_LIMIT == VarValue(s[1..i + 1]) % SIZE_LIMIT
    ensures mult * 128 % SIZE_LIMIT == Pow128(i) % SIZE_LIMIT
  {
    hide VarValue, Pow128;
    assert s[1..i + 1] == s[1..i] + [s[i]];
    OneDigit(s[1..i], s[i]);
    OnePower(i - 1);
  }

  lemma VarEndStep(s: bytes, i: nat)
    requires i <= |s|
    ensures VarEnd(s, i) == if i == |s| then None else if s[i] < 128 then Some(i + 1) else VarEnd(s, i + 1)
  {
  }

  /** The checks and the length loop in front of mqttWaitPacket's switch. */
  method DecodeHeader(buf: array<byte>, got: nat) returns (h: Option<Header>)
    requires got <= buf.Length
    ensures h == ReadHeader(buf[..got])
  {
    if got < 2 {
      return None;
    }
    hide VarValue, Pow128, VarEnd;
    ghost var s: bytes := buf[..got];
    assert s[1..1] == [];
    NoDigit();
    var i, rl, mult, more := 1, 0, 1, true;
    while more
      invariant 1 <= i <= got
      invariant rl == VarValue(s[1..i]) % SIZE_LIMIT && mult == Pow128(i - 1) % SIZE_LIMIT
      invariant more ==> VarEnd(s, 1) == VarEnd(s, i)
      invariant !more ==> VarEnd(s, 1) == Some(i)
      decreases got - i, more
    {
      VarEndStep(s, i);
      if i >= got {
        return None;
      }
      var b := buf[i];
      DecodeStep(s, i, rl, mult);
      rl := (rl + b % 128 * mult) % SIZE_LIMIT;
      mult := mult * 128 % SIZE_LIMIT;
      i := i + 1;
      more := b >= 128;
    }
    if got < (i + rl) % SIZE_LIMIT {
      return None;
    }
    h := Some(Header(buf[0] / 16, i, rl));
  }

  /** The decoder finds, for every packet of any length the code can express, its type, and a header and a body that
      make up the packet exactly. */
  lemma HeaderOfPacket(b0: byte, body: bytes)
    requires |body| <= MAX_REMAINING
    ensures var p := [b0] + VarInt(|body|) + body;
            ReadHeader(p) == Some(Header(b0 / 16, 1 + |VarInt(|body|)|, |body|))
            && 1 + |VarInt(|body|)| + |body| == |p| && p[1 + |VarInt(|body|)|..] == body
  {
    hide VarInt, VarValue, VarEnd;
    var rl := VarInt(|body|);
    var p := [b0] + rl + body;
    VarIntEnds([b0], |body|, body);
    VarRoundTrip(|body|);
    VarIntSize(|body|);
    assert p[1..1 + |rl|] == rl;
  }

  /** What the decoder accepts is a whole packet exactly when header and body together do not wrap around. */
  lemma AcceptsWholePackets(s: bytes)
    requires |s| <= 1024 && ReadHeader(s).Some?
    ensures var h := ReadHeader(s).value;
            h.start + h.len <= |s| <==> h.start + h.len < SIZE_LIMIT
    ensures ReadHeader(s).value.start <= 5 ==> ReadHeader(s).value.start + ReadHeader(s).value.len <= |s|
  {
    var h := ReadHeader(s).value;
    if h.start <= 5 {
      VarBound(s[1..h.start]);
      assert Pow128(4) == 128 * Pow128(3) == 128 * 128 * Pow128(2);
      PowGrows(h.start - 1, 4);
    }
  }

  lemma {:induction false} VarBound(s: bytes)
    ensures VarValue(s) < Pow128(|s|)
  {
    if s != [] {
      VarBound(s[1..]);
    }
  }

  lemma {:induction false} PowGrows(m: nat, n: nat)
    requires m <= n
    ensures Pow128(m) <= Pow128(n)
  {
    if m < n {
      PowGrows(m, n - 1);
    }
  }

  /** A five-octet length, which the standard does not allow, is accepted without a body. */
  lemma FiveOctetsWrap()
    ensures ReadHeader([0x40, 0xFE, 0xFF, 0xFF, 0xFF, 0x0F]) == Some(Header(4, 6, 0xFFFF_FFFE))
  {
    var s: bytes := [0x40, 0xFE, 0xFF, 0xFF, 0xFF, 0x0F];
    assert VarEnd(s, 4) == VarEnd(s, 5) == Some(6);
    assert VarEnd(s, 2) == VarEnd(s, 3) == VarEnd(s, 4);
    assert s[1..6] == [0xFE, 0xFF, 0xFF, 0xFF, 0x0F];
    var t: bytes := [0xFE, 0xFF, 0xFF, 0xFF, 0x0F];
    assert t[1..] == [0xFF, 0xFF, 0xFF, 0x0F];
    assert t[1..][1..] == [0xFF, 0xFF, 0x0F];
    assert t[1..][1..][1..] == [0xFF, 0x0F];
    assert t[1..][1..][1..][1..] == [0x0F];
    assert t[1..][1..][1..][1..][1..] == [];
    assert VarValue(t[1..][1..][1..][1..]) == 0x0F;
    assert VarValue(t[1..][1..][1..]) == 0x7F + 128 * 0x0F;
    assert VarValue(t[1..][1..]) == 0x7F + 128 * (0x7F + 128 * 0x0F);
    assert VarValue(t[1..]) == 0x7F + 128 * (0x7F + 128 * (0x7F + 128 * 0x0F));
    assert VarValue(t) == 0xFFFF_FFFE;
  }

  // ---------------------------------------------------------------------------
  // CONNECT (section 3.1)
  // ---------------------------------------------------------------------------

  function Str(s: bytes): bytes {
    Be(|s|, 2) + s
  }

  function Flags(username: bytes, password: bytes): byte {
    2 + (if username != [] then 0x80 else 0) + (if password != [] then 0x40 else 0)
  }

  function StrIf(s: bytes): bytes {
    if s != [] then Str(s) else []
  }

  function ConnectFixed(username: bytes, password: bytes): bytes {
    [0x00, 0x04, 0x4D, 0x51, 0x54, 0x54, 0x04, Flags(username, password), 0x00, 0x3C]
  }

  function ConnectBody(clientId: bytes, username: bytes, password: bytes): bytes {
    ConnectFixed(username, password) + (Str(clientId) + (StrIf(username) + StrIf(password)))
  }

  function ConnectPacket(clientId: bytes, username: bytes, password: bytes): bytes {
    var body := ConnectBody(clientId, username, password);
    [0x10] + VarInt(|body|) + body
  }

  /** With the field sizes of the configuration the 512 bytes are enough. */
  lemma ConnectFits(clientId: bytes, username: bytes, password: bytes)
    requires |clientId| <= 32 && |username| <= 64 && |password| <= 128
    ensures |ConnectPacket(clientId, username, password)| <= 243
  {
    VarIntSize(|ConnectBody(clientId, username, password)|);
  }

  datatype Connect = Connect(clientId: bytes, username: Option<bytes>, password: Option<bytes>, clean: bool,
                             keepAlive: nat)

  /** The body of a packet by section 2.2: a length in at most four octets that the rest of the packet has. */
  function BodyOf(s: bytes): Option<bytes> {
    if |s| < 2 then None
    else
      match VarEnd(s, 1)
      case None => None
      case Some(e) => if e <= 5 && e + VarValue(s[1..e]) == |s| then Some(s[e..]) else None
  }

  function TakeStr(s: bytes): Option<(bytes, bytes)> {
    if |s| < 2 || |s| < 2 + Word(s[0], s[1]) then None
    else Some((s[2..2 + Word(s[0], s[1])], s[2 + Word(s[0], s[1])..]))
  }

  function TakeStrIf(present: bool, s: bytes): Option<(Option<bytes>, bytes)> {
    if !present then Some((None, s))
    else match TakeStr(s) case None => None case Some(r) => Some((Some(r.0), r.1))
  }

  function Bit(f: nat, weight: nat): bool
    requires weight > 0
  {
    f / weight % 2 == 1
  }

  /** How a server reads a CONNECT without a will: protocol and level, no reserved bit, no password without a user
      name (section 3.1.2.9), and the payload fields the flags announce, with nothing behind them. */
  function ParseConnect(s: bytes): Option<Connect> {
    match BodyOf(s)
    case None => None
    case Some(b) =>
      if s[0] != 0x10 || |b| < 10 || b[..7] != [0x00, 0x04, 0x4D, 0x51, 0x54, 0x54, 0x04] then None
      else ParseConnectFields(b[7], Word(b[8], b[9]), b[10..])
  }

  function ParseConnectFields(f: byte, keepAlive: nat, s: bytes): Option<Connect> {
    if Bit(f, 1) || Bit(f, 4) || (Bit(f, 64) && !Bit(f, 128)) then None
    else
      match TakeStr(s)
      case None => None
      case Some(c) =>
        match TakeStrIf(Bit(f, 128), c.1)
        case None => None
        case Some(u) =>
          match TakeStrIf(Bit(f, 64), u.1)
          case None => None
          case Some(p) => if p.1 == [] then Some(Connect(c.0, u.0, p.0, Bit(f, 2), keepAlive)) else None
  }

  lemma StrReads(s: bytes, rest: bytes)
    requires |s| <= 0xFFFF
    ensures TakeStr(Str(s) + rest) == Some((s, rest))
  {
  }

  lemma BodyReads(b0: byte, body: bytes)
    requires |body| <= MAX_REMAINING
    ensures BodyOf([b0] + VarInt(|body|) + body) == Some(body)
  {
    HeaderOfPacket(b0, body);
    VarIntSize(|body|);
    VarIntEnds([b0], |body|, body);
    VarRoundTrip(|body|);
    var p := [b0] + VarInt(|body|) + body;
    assert p[1..1 + |VarInt(|body|)|] == VarInt(|body|);
  }

  function Given(s: bytes): Option<bytes> {
    if s != [] then Some(s) else None
  }

  lemma FieldsRead(clientId: bytes, username: bytes, password: bytes)
    requires |clientId| <= 0xFFFF && |username| <= 0xFFFF && |password| <= 0xFFFF
    requires password == [] || username != []
    ensures ParseConnectFields(Flags(username, password), 60,
              Str(clientId) + (StrIf(username) + StrIf(password)))
            == Some(Connect(clientId, Given(username), Given(password), true, 60))
  {
    hide Str, TakeStr;
    var p := StrIf(password);
    StrReads(clientId, StrIf(username) + p);
    StrReads(username, p);
    StrReads(password, []);
    assert Str(password) + [] == Str(password);
    assert [] + p == p;
  }

  /** A server reads back what was configured, with a clean session and a keep-alive of 60 seconds; a password without
      a user name is the one combination the standard forbids. */
  lemma ConnectReads(clientId: bytes, username: bytes, password: bytes)
    requires |clientId| <= 0xFFFF && |username| <= 0xFFFF && |password| <= 0xFFFF
    ensures ParseConnect(ConnectPacket(clientId, username, password))
            == if username == [] && password != [] then None
               else Some(Connect(clientId, Given(username), Given(password), true, 60))
  {
    hide Str, TakeStr, VarInt, BodyOf, Flags;
    var body := ConnectBody(clientId, username, password);
    ConnectBodySize(clientId, username, password);
    BodyReads(0x10, body);
    assert body[..7] == [0x00, 0x04, 0x4D, 0x51, 0x54, 0x54, 0x04];
    assert body[10..] == Str(clientId) + (StrIf(username) + StrIf(password));
    if password == [] || username != [] {
      FieldsRead(clientId, username, password);
    } else {
      ForbiddenFlags(username, password);
    }
  }

  lemma ConnectBodySize(clientId: bytes, username: bytes, password: bytes)
    requires |clientId| <= 0xFFFF && |username| <= 0xFFFF && |password| <= 0xFFFF
    ensures 12 <= |ConnectBody(clientId, username, password)| <= 0x40000
  {
  }

  lemma ForbiddenFlags(username: bytes, password: bytes)
    requires username == [] && password != []
    ensures Bit(Flags(username, password), 64) && !Bit(Flags(username, password), 128)
  {
  }

  // ---------------------------------------------------------------------------
  // PUBLISH (section 3.3)
  // ---------------------------------------------------------------------------

  function PublishBody(id: nat, topic: bytes, payload: bytes): bytes {
    Str(topic) + Be(id, 2) + payload
  }

  function PublishPacket(id: nat, topic: bytes, payload: bytes): bytes {
    [0x32] + VarInt(|PublishBody(id, topic, payload)|) + PublishBody(id, topic, payload)
  }

  datatype Publish = Publish(id: nat, topic: bytes, payload: bytes)

  /** How a server reads a PUBLISH with quality of service 1. */
  function ParsePublish(s: bytes): Option<Publish> {
    match BodyOf(s)
    case None => None
    case Some(b) =>
      if s[0] != 0x32 then None
      else
        match TakeStr(b)
        case None => None
        case Some(r) => if |r.1| < 2 then None else Some(Publish(Word(r.1[0], r.1[1]), r.0, r.1[2..]))
  }

  lemma PublishReads(id: nat, topic: bytes, payload: bytes)
    requires id <= 0xFFFF && |topic| <= 0xFFFF && |PublishBody(id, topic, payload)| <= MAX_REMAINING
    ensures ParsePublish(PublishPacket(id, topic, payload)) == Some(Publish(id, topic, payload))
  {
    hide Str, TakeStr, VarInt, BodyOf;
    var body := PublishBody(id, topic, payload);
    BodyReads(0x32, body);
    assert body == Str(topic) + (Be(id, 2) + payload);
    StrReads(topic, Be(id, 2) + payload);
    TwoOctets(id);
    assert (Be(id, 2) + payload)[2..] == payload;
  }

  /** Through both layers: what the server takes off the WebSocket stream is the reading that was published. */
  lemma PublishArrives(id: nat, topic: bytes, payload: bytes, mask: MaskKey, rest: bytes, max: nat)
    requires id <= 0xFFFF && |topic| <= 0xFFFF && |PublishBody(id, topic, payload)| <= MAX_REMAINING
    requires |PublishPacket(id, topic, payload)| <= max
    ensures var r := ReadFrame(FrameOf(2, mask, PublishPacket(id, topic, payload)) + rest, max);
            r.Some? && r.value.opcode == 2 && r.value.rest == rest
            && ParsePublish(r.value.payload) == Some(Publish(id, topic, payload))
  {
    hide FrameOf, ReadFrame, ParsePublish, VarInt;
    var p := PublishPacket(id, topic, payload);
    VarIntSize(|PublishBody(id, topic, payload)|);
    FrameRoundTrip(2, mask, p, rest, max);
    PublishReads(id, topic, payload);
    assert p[..|p|] == p;
  }

  // ---------------------------------------------------------------------------
  // Packet ids
  // ---------------------------------------------------------------------------

  function NextId(id: nat): nat {
    if (id + 1) % 0x10000 == 0 then 1 else (id + 1) % 0x10000
  }

  /** The id after `n` publishes. */
  function IdAfter(id: nat, n: nat): nat {
    if n == 0 then id else NextId(IdAfter(id, n - 1))
  }

  lemma NextIdIs(id: nat)
    requires id <= 0xFFFF
    ensures NextId(id) == id % 0xFFFF + 1
  {
  }

  lemma OneMore(x: nat)
    ensures (x % 0xFFFF + 1) % 0xFFFF == (x + 1) % 0xFFFF
  {
  }

  lemma {:induction false} IdIs(id: nat, n: nat)
    requires id <= 0xFFFF && n > 0
    ensures IdAfter(id, n) == (id + n - 1) % 0xFFFF + 1
  {
    hide NextId;
    if n == 1 {
      assert IdAfter(id, 0) == id;
      NextIdIs(id);
    } else {
      IdIs(id, n - 1);
      NextIdIs((id + n - 2) % 0xFFFF + 1);
      OneMore(id + n - 2);
    }
  }

  lemma Apart(a: nat, b: nat)
    requires a < b < a + 0xFFFF
    ensures a % 0xFFFF != b % 0xFFFF
  {
  }

  /** Ids are valid and any 65535 publishes in a row have different ones. */
  lemma IdsDiffer(id: nat, m: nat, n: nat)
    requires id <= 0xFFFF && 0 < m < n < m + 0xFFFF
    ensures IdAfter(id, m) != IdAfter(id, n) && 1 <= IdAfter(id, n) <= 0xFFFF
  {
    IdIs(id, m);
    IdIs(id, n);
    Apart(id + m - 1, id + n - 1);
  }

  // ---------------------------------------------------------------------------
  // The client
  // ---------------------------------------------------------------------------

  /** memcpy of a string behind what is already there. */
  method Put(buf: array<byte>, o: nat, s: bytes) returns (end: nat)
    requires o + |s| <= buf.Length
    modifies buf
    ensures end == o + |s| && buf[..end] == old(buf[..o]) + s && buf[end..] == old(buf[end..])
  {
    for i := 0 to |s|
      invariant buf[..o + i] == old(buf[..o]) + s[..i] && buf[o + |s|..] == old(buf[o + |s|..])
    {
      buf[o + i] := s[i];
      assert buf[..o + i + 1] == buf[..o + i] + [s[i]];
    }
    assert s[..|s|] == s;
    end := o + |s|;
  }

  method PutStr(buf: array<byte>, o: nat, s: bytes) returns (end: nat)
    requires o + 2 + |s| <= buf.Length
    modifies buf
    ensures end == o + 2 + |s| && buf[..end] == old(buf[..o]) + Str(s)
  {
    TwoOctets(|s|);
    buf[o], buf[o + 1] := |s| / 256 % 256, |s| % 256;
    assert buf[..o + 2] == old(buf[..o]) + Be(|s|, 2);
    end := Put(buf, o + 2, s);
  }

  /** memmove of `buf[1..o]` by `places`. */
  method MoveUp(buf: array<byte>, o: nat, places: nat)
    requires 1 <= o && o + places <= buf.Length
    modifies buf
    ensures buf[0] == old(buf[0]) && buf[1 + places..o + places] == old(buf[1..o])
  {
    ghost var s := buf[..o];
    var i := o;
    while i > 1
      invariant 1 <= i <= o
      invariant buf[i + places..o + places] == s[i..]
      invariant buf[..i] == s[..i]
    {
      i := i - 1;
      ghost var moved := buf[i + 1 + places..o + places];
      assert buf[i] == buf[..i + 1][i];
      buf[i + places] := buf[i];
      assert buf[i + places..o + places] == [s[i]] + moved;
    }
    assert buf[0] == buf[..1][0];
  }

  lemma Regrouped(a: bytes, b: bytes, c: bytes, d: bytes)
    ensures a + b + c + d == a + (b + (c + d)) && a + b + c + [] == a + b + c && a + b + [] + d == a + b + d
  {
  }

  /** Shifts the body up and puts the length in front of it. */
  method PutBehindFirst(buf: array<byte>, o: nat, s: bytes)
    requires 1 <= o && o + |s| <= buf.Length
    modifies buf
    ensures buf[..o + |s|] == [old(buf[..o])[0]] + s + old(buf[..o])[1..]
  {
    MoveUp(buf, o, |s|);
    ghost var body := buf[1 + |s|..o + |s|];
    assert body == old(buf[..o])[1..];
    assert body == buf[1 + |s|..][..o - 1];
    var end := Put(buf, 1, s);
    assert buf[end..o + |s|] == buf[end..][..o - 1];
    assert buf[..o + |s|] == buf[..end] + buf[end..o + |s|];
  }

  class Client {
    const socket: Socket
    var clientId: bytes
    var username: bytes
    var password: bytes
    var packetId: nat

    /** The first packet id is random. */
    constructor (s: Socket, seed: nat)
      requires seed <= 0xFFFF
      ensures socket == s && packetId == seed && clientId == [] && username == [] && password == []
    {
      socket, clientId, username, password, packetId := s, [], [], [], seed;
    }

    /** The body is written right behind the type byte and moved up when its length is known. */
    method BuildConnect(buf: array<byte>) returns (total: nat)
      requires buf.Length == 512 && |ConnectPacket(clientId, username, password)| <= 512
      modifies buf
      ensures total <= 512 && buf[..total] == ConnectPacket(clientId, username, password)
    {
      hide ConnectBody, VarInt;
      ghost var body := ConnectBody(clientId, username, password);
      var o := PutBody(buf);
      var bodyLen := o - 1;
      var rl := new byte[4];
      var rlN := PutVarInt(rl, bodyLen);
      ghost var whole := buf[..o];
      assert whole[0] == 0x10 && whole[1..] == body;
      PutBehindFirst(buf, o, rl[..rlN]);
      total := 1 + rlN + bodyLen;
    }

    method PutFixed(buf: array<byte>) returns (o: nat)
      requires buf.Length == 512
      modifies buf
      ensures o == 11 && buf[..o] == [0x10] + ConnectFixed(username, password)
    {
      buf[0] := 0x10;
      o := Put(buf, 1, [0x00, 0x04, 0x4D, 0x51, 0x54, 0x54, 0x04]);
      ghost var start := buf[..o];
      var flags: byte := 0x02;
      if username != [] {
        flags := flags + 0x80;
      }
      if password != [] {
        flags := flags + 0x40;
      }
      o := Put(buf, o, [flags, 0x00, 0x3C]);
      assert buf[..o] == start + [flags, 0x00, 0x3C];
    }

    method PutStrings(buf: array<byte>, o: nat) returns (end: nat)
      requires o + |Str(clientId) + (StrIf(username) + StrIf(password))| <= buf.Length
      modifies buf
      ensures end == o + |Str(clientId) + (StrIf(username) + StrIf(password))|
      ensures buf[..end] == old(buf[..o]) + (Str(clientId) + (StrIf(username) + StrIf(password)))
    {
      end := PutStr(buf, o, clientId);
      if username != [] {
        end := PutStr(buf, end, username);
      }
      if password != [] {
        end := PutStr(buf, end, password);
      }
      Regrouped(old(buf[..o]), Str(clientId), StrIf(username), StrIf(password));
    }

    method PutBody(buf: array<byte>) returns (o: nat)
      requires buf.Length == 512 && |ConnectPacket(clientId, username, password)| <= 512
      modifies buf
      ensures o <= 512 && buf[..o] == [0x10] + ConnectBody(clientId, username, password)
    {
      hide Str, StrIf, VarInt, Flags;
      o := PutFixed(buf);
      o := PutStrings(buf, o);
      ghost var strings := Str(clientId) + (StrIf(username) + StrIf(password));
      assert buf[..o] == ([0x10] + ConnectFixed(username, password)) + strings;
      assert ([0x10] + ConnectFixed(username, password)) + strings
          == [0x10] + (ConnectFixed(username, password) + strings);
    }

    method SendConnect(mask: MaskKey) returns (ok: bool)
      requires |ConnectPacket(clientId, username, password)| <= 512
      modifies socket`sent, socket`room
      ensures var f := FrameOf(2, mask, ConnectPacket(clientId, username, password));
              ok == (|f| <= old(socket.room)) && socket.sent == old(socket.sent) + f[..Min(|f|, old(socket.room))]
    {
      hide FrameOf, IsFrame, ShortLength;
      var buf := new byte[512];
      var total := BuildConnect(buf);
      ok := socket.Send(2, mask, buf, total);
    }

    /** `memory` says whether malloc delivered. */
    method SendPublish(mask: MaskKey, id: nat, topic: bytes, payload: bytes, memory: bool) returns (ok: bool)
      requires |PublishBody(id, topic, payload)| <= MAX_REMAINING
      modifies socket`sent, socket`room
      ensures var f := FrameOf(2, mask, PublishPacket(id, topic, payload));
              ok == (memory && |f| <= old(socket.room))
              && socket.sent == old(socket.sent) + (if memory then f[..Min(|f|, old(socket.room))] else [])
    {
      hide VarInt, FrameOf, IsFrame, ShortLength;
      if !memory {
        return false;
      }
      var rl := new byte[4];
      var rlN := PutVarInt(rl, 2 + |topic| + 2 + |payload|);
      var total := 1 + rlN + 2 + |topic| + 2 + |payload|;
      var buf := new byte[total];
      var o := FillPublish(buf, rl[..rlN], id, topic, payload);
      assert buf[..o] == PublishPacket(id, topic, payload);
      ok := socket.Send(2, mask, buf, o);
    }

    static method FillPublish(buf: array<byte>, rl: bytes, id: nat, topic: bytes, payload: bytes) returns (o: nat)
      requires buf.Length == 1 + |rl| + |PublishBody(id, topic, payload)|
      modifies buf
      ensures o == buf.Length && buf[..o] == [0x32] + rl + PublishBody(id, topic, payload)
    {
      hide Be;
      buf[0] := 0x32;
      o := Put(buf, 1, rl);
      o := PutStr(buf, o, topic);
      TwoOctets(id);
      o := Put(buf, o, [id / 256 % 256, id % 256]);
      o := Put(buf, o, payload);
      Regrouped([0x32] + rl, Str(topic), Be(id, 2), payload);
    }

    /** publish(), up to the wait for the acknowledgement. */
    method Publish(mask: MaskKey, topic: bytes, payload: bytes, memory: bool) returns (ok: bool)
      requires packetId <= 0xFFFF && |PublishBody(0, topic, payload)| <= MAX_REMAINING
      modifies `packetId, socket`sent, socket`room
      ensures packetId == NextId(old(packetId)) && packetId <= 0xFFFF
      ensures var f := FrameOf(2, mask, PublishPacket(packetId, topic, payload));
              ok == (memory && |f| <= old(socket.room))
              && socket.sent == old(socket.sent) + (if memory then f[..Min(|f|, old(socket.room))] else [])
    {
      packetId := (packetId + 1) % 0x10000;
      if packetId == 0 {
        packetId := 1;
      }
      ok := SendPublish(mask, packetId, topic, payload, memory);
    }
  }
}
