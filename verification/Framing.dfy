/** Length-prefixed packets on the mesh's TCP streams: sendFrame of src/network/sta_controller.cpp and readFrame of
    src/network/ap_controller.cpp with its four client slots. Octets that are still to come arrive while the reader
    waits for a body; a connection that breaks in a frame has none to come. */
module Framing {
  import opened Bytes
  import opened Wire

  const MAX_PACKET: nat := 143
  const CLIENTS: nat := 4

  predicate Sendable(p: bytes) {
    0 < |p| <= MAX_PACKET
  }

  function FrameOf(p: bytes): bytes {
    Le(|p|, 2) + p
  }

  /** Packets of 1 to 143 octets behind their length, low octet first. */
  lemma FramesAre(p: bytes)
    ensures Sendable(p) <==> 1 <= |p| <= 143
    ensures FrameOf(p) == [|p| % 0x100, |p| / 0x100 % 0x100] + p
    ensures CLIENTS == 4
  {
    TwoLittle(|p|);
  }

  function Frames(ps: seq<bytes>): bytes {
    if ps == [] then [] else FrameOf(ps[0]) + Frames(ps[1..])
  }

  lemma {:induction false} FramesSnoc(ps: seq<bytes>, p: bytes)
    ensures Frames(ps + [p]) == Frames(ps) + FrameOf(p)
  {
    hide FrameOf;
    if ps == [] {
      assert Frames([p]) == FrameOf(p) + Frames([p][1..]);
      assert FrameOf(p) + [] == FrameOf(p);
    } else {
      FramesSnoc(ps[1..], p);
      assert (ps + [p])[1..] == ps[1..] + [p];
      assert FrameOf(ps[0]) + (Frames(ps[1..]) + FrameOf(p)) == (FrameOf(ps[0]) + Frames(ps[1..])) + FrameOf(p);
    }
  }

  // ---------------------------------------------------------------------------
  // The child's side
  // ---------------------------------------------------------------------------

  class StaController {
    var connected: bool
    var room: nat                   // octets the connection takes before it breaks
    var written: bytes
    ghost var packets: seq<bytes>   // what has been sent whole
    ghost var cut: bytes            // the beginning of the frame in which the connection broke

    ghost predicate Valid()
      reads this
    {
      written == Frames(packets) + cut && (cut == [] || (!connected && IsCut(cut)))
      && forall i :: 0 <= i < |packets| ==> Sendable(packets[i])
    }

    /** write() of the socket. */
    method Write(s: bytes) returns (n: nat)
      modifies this`connected, this`room, this`written
      ensures n == Min(|s|, old(room)) && room == old(room) - n && written == old(written) + s[..n]
      ensures connected == (old(connected) && n == |s|)
    {
      n := Min(|s|, room);
      written, room := written + s[..n], room - n;
      connected := connected && n == |s|;
    }

    /** The frame goes out whole and in order, or its beginning does and the connection is broken. */
    method SendFrame(p: bytes) returns (sent: nat)
      requires Valid()
      modifies this
      ensures Valid()
      ensures var f := FrameOf(p);
              if !old(connected) || !Sendable(p) then
                sent == 0 && connected == old(connected) && packets == old(packets) && cut == old(cut)
              else if |f| <= old(room) then
                sent == |p| && connected && packets == old(packets) + [p] && cut == old(cut) == []
              else
                sent == (if old(room) < 2 then 0 else old(room) - 2) && !connected
                && packets == old(packets) && cut == f[..old(room)]
    {
      hide Le, Frames;
      if !connected || |p| == 0 || |p| > MAX_PACKET {
        return 0;
      }
      var lenBytes := [|p| % 256, |p| / 256 % 256];
      TwoLittle(|p|);
      ghost var f, before := FrameOf(p), written;
      assert f == lenBytes + p && before == Frames(packets) by { assert Frames(packets) + [] == Frames(packets); }
      var n := Write(lenBytes);
      sent := Write(p);
      TwoWrites(before, lenBytes, p, old(room));
      FramesSnoc(packets, p);
      if sent == |p| {
        assert f[..|f|] == f;
        packets := packets + [p];
        assert Frames(packets) + [] == Frames(packets);
      } else {
        CutsAre(p, old(room));
        cut := f[..old(room)];
      }
    }
  }

  /** The beginning of a frame, and not the whole of it. */
  ghost predicate IsCut(cut: bytes) {
    cut == [] || exists p :: CutOf(p, cut)
  }

  predicate CutOf(p: bytes, cut: bytes) {
    Sendable(p) && |cut| < |FrameOf(p)| && cut == FrameOf(p)[..|cut|]
  }

  lemma CutsAre(p: bytes, n: nat)
    requires Sendable(p) && n < |FrameOf(p)|
    ensures IsCut(FrameOf(p)[..n])
  {
    assert CutOf(p, FrameOf(p)[..n]);
  }

  lemma TwoWrites(before: bytes, a: bytes, b: bytes, room: nat)
    ensures var n := Min(|a|, room);
            var k := Min(|b|, room - n);
            before + a[..n] + b[..k] == before + (a + b)[..Min(|a + b|, room)]
  {
  }

  lemma TwoLittle(v: nat)
    ensures Le(v, 2) == [v % 256, v / 256 % 256]
    ensures LeNumber(Le(v, 2)) == v % 0x10000
  {
    assert Le(v / 256, 1) == [v / 256 % 256] + Le(v / 256 / 256, 0);
    var s := Le(v, 2);
    assert s[1..] == [v / 256 % 256] && s[1..][1..] == [];
    assert LeNumber(s[1..]) == v / 256 % 256 + 256 * LeNumber([]);
  }

  // ---------------------------------------------------------------------------
  // The parent's side
  // ---------------------------------------------------------------------------

  /** A client slot; the first `available` octets of what the child has yet to be read have arrived. */
  datatype Slot = Free | Taken(conn: nat, unread: bytes, available: nat)

  type Packet = (nat, bytes)   // the connection and what came from it

  predicate SlotOk(s: Slot) {
    s.Taken? ==> s.available <= |s.unread|
  }

  predicate HasHeader(s: Slot) {
    s.Taken? && SlotOk(s) && s.available >= 2
  }

  function Announced(s: Slot): nat
    requires HasHeader(s)
  {
    LeNumber(s.unread[..2])
  }

  predicate Acceptable(len: nat, maxLen: nat) {
    0 < len <= maxLen && len <= MAX_PACKET
  }

  /** One slot's turn: the slot afterwards, and the packet if it had one. A bad length costs its two octets; when the
      rest of a body never comes, the wait takes what there is. */
  function Turn(s: Slot, maxLen: nat): (r: (Slot, Option<bytes>))
    requires SlotOk(s)
    ensures SlotOk(r.0)
  {
    if !HasHeader(s) then (s, None)
    else
      var len := Announced(s);
      if !Acceptable(len, maxLen) then (Taken(s.conn, s.unread[2..], s.available - 2), None)
      else if |s.unread| < 2 + len then (Taken(s.conn, [], 0), None)
      else
        (Taken(s.conn, s.unread[2 + len..], if s.available >= 2 + len then s.available - 2 - len else 0),
         Some(s.unread[2..2 + len]))
  }

  /** A turn, by the octets: the first two are the length, low octet first; one of 1 to 143 that fits the buffer takes
      that many octets more, if they come, and any other leaves the stream right behind the two. */
  lemma TurnIs(s: Slot, maxLen: nat)
    requires s.Taken? && SlotOk(s) && s.available >= 2
    ensures var len, t := Word(s.unread[1], s.unread[0]), Turn(s, maxLen);
            && t.0.Taken? && t.0.conn == s.conn
            && (t.1.Some? <==> 1 <= len <= 143 && len <= maxLen && 2 + len <= |s.unread|)
            && (t.1.Some? ==> t.1.value == s.unread[2..2 + len] && t.0.unread == s.unread[2 + len..])
            && (!(1 <= len <= 143 && len <= maxLen) ==> t.0.unread == s.unread[2..])
  {
    LittleWord(s.unread[..2]);
  }

  /** The same octets to come, some more of them already there. */
  predicate MoreArrived(s: Slot, t: Slot) {
    s == t || (s.Taken? && t.Taken? && t == s.(available := t.available) && s.available <= t.available <= |t.unread|)
  }

  class ApController {
    const clients: array<Slot>

    constructor ()
      ensures fresh(clients) && clients.Length == CLIENTS
      ensures forall i :: 0 <= i < CLIENTS ==> clients[i] == Free
    {
      clients := new Slot[CLIENTS](_ => Free);
    }

    /** A waiting connection gets the first free slot, or is dropped. */
    method Admit(c: Slot)
      requires clients.Length == CLIENTS && c.Taken?
      modifies clients
      ensures var k := FirstFree(old(clients[..]), 0);
              clients[..] == if k < CLIENTS then old(clients[..])[k := c] else old(clients[..])
    {
      var i := 0;
      while i < CLIENTS
        invariant 0 <= i <= CLIENTS
        invariant FirstFree(clients[..], 0) == FirstFree(clients[..], i)
        invariant clients[..] == old(clients[..])
      {
        if clients[i].Free? {
          clients[i] := c;
          return;
        }
        i := i + 1;
      }
    }

    /** The first slot with a whole header is read; slots before it had none or a bad one. */
    method ReadFrame(out: array<byte>, maxLen: nat) returns (len: nat, from: nat)
      requires clients.Length == CLIENTS && maxLen <= out.Length
      requires forall i :: 0 <= i < CLIENTS ==> SlotOk(clients[i])
      modifies clients, out
      ensures from <= CLIENTS && (len > 0 <==> from < CLIENTS) && len <= maxLen && len <= 143
      ensures forall i :: 0 <= i < CLIENTS ==>
                if i <= from then MoreArrived(Turn(old(clients[i]), maxLen).0, clients[i])
                else clients[i] == old(clients[i])
      ensures forall i :: 0 <= i < from ==> Turn(old(clients[i]), maxLen).1 == None
      ensures from < CLIENTS ==> Turn(old(clients[from]), maxLen).1 == Some(out[..len])
    {
      from := 0;
      while from < CLIENTS
        invariant 0 <= from <= CLIENTS
        invariant forall i :: 0 <= i < CLIENTS ==>
                    if i < from then MoreArrived(Turn(old(clients[i]), maxLen).0, clients[i])
                    else clients[i] == old(clients[i])
        invariant forall i :: 0 <= i < from ==> Turn(old(clients[i]), maxLen).1 == None
      {
        len := ReadSlot(from, out, maxLen);
        if len > 0 {
          return;
        }
        from := from + 1;
      }
      len := 0;
    }

    /** What the loop of readFrame does with one slot; no length means no packet. */
    method ReadSlot(i: nat, out: array<byte>, maxLen: nat) returns (len: nat)
      requires i < clients.Length && SlotOk(clients[i]) && maxLen <= out.Length
      modifies clients, out
      ensures len <= maxLen && len <= 143
      ensures MoreArrived(Turn(old(clients[i]), maxLen).0, clients[i])
      ensures Turn(old(clients[i]), maxLen).1 == if len > 0 then Some(out[..len]) else None
      ensures forall j :: 0 <= j < clients.Length && j != i ==> clients[j] == old(clients[j])
    {
      if clients[i].Free? || clients[i].available < 2 {
        return 0;
      }
      ghost var s := clients[i];
      var lenBytes := Take(i, 2);
      len := Word(lenBytes[1], lenBytes[0]);
      LittleWord(lenBytes);
      if len == 0 || len > maxLen || len > MAX_PACKET {
        return 0;
      }
      var got := ReadBody(i, out, len);
      if got == len {
        Behind(s.unread, 2, len);
      } else {
        len := 0;
      }
    }

    static lemma Behind(t: bytes, a: nat, b: nat)
      requires a + b <= |t|
      ensures t[a..][..b] == t[a..a + b] && t[a..][b..] == t[a + b..]
    {
    }

    /** read() of octets that are there. */
    method Take(i: nat, n: nat) returns (s: bytes)
      requires i < clients.Length && clients[i].Taken? && n <= clients[i].available && SlotOk(clients[i])
      modifies clients
      ensures s == old(clients[i].unread)[..n]
      ensures clients[i] == Taken(old(clients[i].conn), old(clients[i].unread)[n..], old(clients[i].available) - n)
      ensures forall j :: 0 <= j < clients.Length && j != i ==> clients[j] == old(clients[j])
    {
      var c := clients[i];
      s := c.unread[..n];
      clients[i] := Taken(c.conn, c.unread[n..], c.available - n);
    }

    static method Copy(out: array<byte>, o: nat, chunk: bytes)
      requires o + |chunk| <= out.Length
      modifies out
      ensures out[..o + |chunk|] == old(out[..o]) + chunk
    {
      for k := 0 to |chunk|
        invariant out[..o + k] == old(out[..o]) + chunk[..k]
      {
        out[o + k] := chunk[k];
        assert out[..o + k + 1] == out[..o + k] + [chunk[k]];
      }
      assert chunk[..|chunk|] == chunk;
    }

    /** The wait for the body: in every round some octets have arrived, in chunks of any size, until it is complete or
        nothing more comes. */
    method ReadBody(i: nat, out: array<byte>, len: nat) returns (got: nat)
      requires i < clients.Length && clients[i].Taken? && SlotOk(clients[i]) && len <= out.Length
      modifies clients, out
      ensures got == Min(len, |old(clients[i].unread)|) && out[..got] == old(clients[i].unread)[..got]
      ensures clients[i].Taken? && SlotOk(clients[i])
      ensures clients[i] == Taken(old(clients[i].conn), old(clients[i].unread)[got..], clients[i].available)
      ensures clients[i].available + got >= old(clients[i].available)
      ensures forall j :: 0 <= j < clients.Length && j != i ==> clients[j] == old(clients[j])
    {
      got := 0;
      ghost var s := clients[i];
      while got < len && clients[i].unread != []
        invariant 0 <= got <= len && got <= |s.unread| && out[..got] == s.unread[..got]
        invariant clients[i].Taken? && SlotOk(clients[i])
        invariant clients[i] == Taken(s.conn, s.unread[got..], clients[i].available)
        invariant clients[i].available + got >= s.available
        invariant forall j :: 0 <= j < clients.Length && j != i ==> clients[j] == old(clients[j])
        decreases len - got
      {
        var c := clients[i];
        var there: nat :| c.available <= there <= |c.unread| && there > 0;
        clients[i] := c.(available := there);
        var n := Min(there, len - got);
        var chunk := Take(i, n);
        Copy(out, got, chunk);
        assert s.unread[..got + n] == s.unread[..got] + chunk;
        assert s.unread[got..][n..] == s.unread[got + n..];
        got := got + n;
      }
    }
  }

  lemma LittleWord(s: bytes)
    requires |s| == 2
    ensures LeNumber(s) == Word(s[1], s[0])
  {
    assert s[1..][1..] == [];
    assert LeNumber(s[1..]) == s[1] + 256 * LeNumber([]);
  }

  // ---------------------------------------------------------------------------
  // Runs
  // ---------------------------------------------------------------------------

  /** What a connection sends in its life: whole packets, and perhaps the beginning of one more. */
  datatype Child = Child(packets: seq<bytes>, cut: bytes)

  type Sent = nat -> Child

  function StreamOf(child: Child, read: nat): bytes
    requires read <= |child.packets|
  {
    Frames(child.packets[read..]) + child.cut
  }

  datatype State = State(slots: seq<Slot>, seen: set<nat>, returned: seq<Packet>)

  datatype Step =
    | Connect(conn: nat)
    | Close(i: nat)
    | Arrive(i: nat, available: nat)
    | Read

  /** readFrame over the slots from the `i`-th on. */
  function ReadFrom(slots: seq<Slot>, i: nat): (r: (seq<Slot>, Option<Packet>))
    requires i <= |slots| && forall k :: i <= k < |slots| ==> SlotOk(slots[k])
    ensures |r.0| == |slots|
    decreases |slots| - i
  {
    if i == |slots| then (slots, None)
    else
      var (s, p) := Turn(slots[i], MAX_PACKET);
      if p.Some? then (slots[i := s], Some((s.conn, p.value))) else ReadFrom(slots[i := s], i + 1)
  }

  /** The step is what ApController.ReadFrame does with a buffer of MAX_PACKET; what arrived meanwhile is a step of its
      own. */
  lemma {:induction false} ReadFromTurns(slots: seq<Slot>, i: nat, from: nat)
    requires i <= from <= |slots| && forall k :: i <= k < |slots| ==> SlotOk(slots[k])
    requires forall k :: i <= k < from ==> Turn(slots[k], MAX_PACKET).1 == None
    requires from < |slots| ==> Turn(slots[from], MAX_PACKET).1.Some?
    ensures ReadFrom(slots, i).1
            == if from < |slots| then Some((slots[from].conn, Turn(slots[from], MAX_PACKET).1.value)) else None
    ensures forall k :: 0 <= k < |slots| ==>
              ReadFrom(slots, i).0[k] == if i <= k <= from then Turn(slots[k], MAX_PACKET).0 else slots[k]
    decreases |slots| - i
  {
    hide Turn;
    if i < |slots| {
      TurnKeepsTheConnection(slots[i]);
      if i < from {
        ReadFromTurns(slots[i := Turn(slots[i], MAX_PACKET).0], i + 1, from);
      }
    }
  }

  lemma TurnKeepsTheConnection(s: Slot)
    requires SlotOk(s)
    ensures s.Taken? ==> Turn(s, MAX_PACKET).0.Taken? && Turn(s, MAX_PACKET).0.conn == s.conn
    ensures s.Free? ==> Turn(s, MAX_PACKET) == (Free, None)
  {
  }

  function FirstFree(slots: seq<Slot>, i: nat): (k: nat)
    requires i <= |slots|
    ensures i <= k <= |slots| && (k < |slots| ==> slots[k].Free?) && forall j :: i <= j < k ==> slots[j].Taken?
    decreases |slots| - i
  {
    if i == |slots| || slots[i].Free? then i else FirstFree(slots, i + 1)
  }

  ghost predicate SlotsOk(slots: seq<Slot>) {
    |slots| == CLIENTS && forall i :: 0 <= i < CLIENTS ==> SlotOk(slots[i])
  }

  ghost function Next(st: State, sent: Sent, step: Step): Option<State> {
    match step
    case Connect(conn) =>
      if conn in st.seen then None
      else
        var k := FirstFree(st.slots, 0);
        Some(State(
               if k < |st.slots| then st.slots[k := Taken(conn, StreamOf(sent(conn), 0), 0)] else st.slots,
               st.seen + {conn}, st.returned))
    case Close(i) =>
      if i >= |st.slots| then None else Some(st.(slots := st.slots[i := Free]))
    case Arrive(i, available) =>
      if i >= |st.slots| || st.slots[i].Free? || !(st.slots[i].available <= available <= |st.slots[i].unread|) then None
      else Some(st.(slots := st.slots[i := st.slots[i].(available := available)]))
    case Read =>
      if !SlotsOk(st.slots) then None
      else
        var (slots, p) := ReadFrom(st.slots, 0);
        Some(st.(slots := slots, returned := if p.Some? then st.returned + [p.value] else st.returned))
  }

  ghost function Run(st: State, sent: Sent, steps: seq<Step>): Option<State> {
    if steps == [] then Some(st)
    else
      match Run(st, sent, steps[..|steps| - 1])
      case None => None
      case Some(before) => Next(before, sent, steps[|steps| - 1])
  }

  /** What came from one connection, in order. */
  function Of(returned: seq<Packet>, conn: nat): seq<bytes> {
    if returned == [] then []
    else
      Of(returned[..|returned| - 1], conn)
      + if returned[|returned| - 1].0 == conn then [returned[|returned| - 1].1] else []
  }

  ghost predicate AllSendable(sent: Sent) {
    (forall conn: nat, i :: 0 <= i < |sent(conn).packets| ==> Sendable(sent(conn).packets[i]))
    && forall conn: nat :: IsCut(sent(conn).cut)
  }

  /** The stream of a connection stands right behind the packets that were returned, or at its end. */
  ghost predicate AtFrame(st: State, sent: Sent, s: Slot) {
    s.Taken? ==>
      s.conn in st.seen && s.available <= |s.unread| && Of(st.returned, s.conn) <= sent(s.conn).packets
      && (s.unread == StreamOf(sent(s.conn), |Of(st.returned, s.conn)|)
          || (s.unread == [] && Of(st.returned, s.conn) == sent(s.conn).packets))
  }

  ghost predicate Inv(st: State, sent: Sent) {
    |st.slots| == CLIENTS
    && (forall i :: 0 <= i < CLIENTS ==> AtFrame(st, sent, st.slots[i]))
    && (forall i, j :: 0 <= i < j < CLIENTS && st.slots[i].Taken? && st.slots[j].Taken? ==>
        st.slots[i].conn != st.slots[j].conn)
    && (forall conn: nat :: Of(st.returned, conn) <= sent(conn).packets)
    && (forall conn: nat :: conn !in st.seen ==> Of(st.returned, conn) == [])
  }

  ghost function Start(): State {
    State(seq(CLIENTS, _ => Free), {}, [])
  }

  // ---------------------------------------------------------------------------
  // Every step keeps it
  // ---------------------------------------------------------------------------

  lemma OfSnoc(returned: seq<Packet>, p: Packet, conn: nat)
    ensures Of(returned + [p], conn) == Of(returned, conn) + if p.0 == conn then [p.1] else []
  {
  }

  /** With a header there, the next packet of the stream is the next one sent; behind the last one only a cut frame is
      left, and the wait for its rest ends the stream. */
  lemma NextFrame(st: State, sent: Sent, s: Slot)
    requires AllSendable(sent) && AtFrame(st, sent, s) && HasHeader(s)
    ensures var d := |Of(st.returned, s.conn)|;
            if d < |sent(s.conn).packets| then
              Turn(s, MAX_PACKET).1 == Some(sent(s.conn).packets[d])
              && Turn(s, MAX_PACKET).0.Taken? && Turn(s, MAX_PACKET).0.conn == s.conn
              && Turn(s, MAX_PACKET).0.unread == StreamOf(sent(s.conn), d + 1)
            else Turn(s, MAX_PACKET) == (Taken(s.conn, [], 0), None)
  {
    hide Le, AllSendable;
    var d := |Of(st.returned, s.conn)|;
    var rest := sent(s.conn).packets[d..];
    if rest != [] {
      PacketIsSendable(sent, s.conn, d);
      FrameInFront(s, rest[0], Frames(rest[1..]) + sent(s.conn).cut) by {
        assert FrameOf(rest[0]) + Frames(rest[1..]) + sent(s.conn).cut
            == FrameOf(rest[0]) + (Frames(rest[1..]) + sent(s.conn).cut);
      }
      assert rest[1..] == sent(s.conn).packets[d + 1..];
    } else {
      assert s.unread == sent(s.conn).cut;
      CutInFront(sent, s);
    }
  }

  lemma PacketIsSendable(sent: Sent, conn: nat, d: nat)
    requires AllSendable(sent) && d < |sent(conn).packets|
    ensures Sendable(sent(conn).packets[d])
  {
  }

  lemma FrameInFront(s: Slot, p: bytes, rest: bytes)
    requires HasHeader(s) && Sendable(p) && s.unread == FrameOf(p) + rest
    ensures Turn(s, MAX_PACKET).1 == Some(p) && Turn(s, MAX_PACKET).0.Taken? && Turn(s, MAX_PACKET).0.conn == s.conn
    ensures Turn(s, MAX_PACKET).0.unread == rest
  {
    hide Le;
    TwoLittle(|p|);
    assert s.unread[..2] == Le(|p|, 2);
    assert s.unread[2..2 + |p|] == p;
    assert s.unread[2 + |p|..] == rest;
  }

  lemma CutInFront(sent: Sent, s: Slot)
    requires AllSendable(sent) && HasHeader(s) && s.unread == sent(s.conn).cut
    ensures Turn(s, MAX_PACKET) == (Taken(s.conn, [], 0), None)
  {
    hide Le;
    assert IsCut(s.unread);
    var p :| CutOf(p, s.unread);
    TwoLittle(|p|);
    assert s.unread[..2] == FrameOf(p)[..|s.unread|][..2] == Le(|p|, 2);
  }

  lemma SlotIsAtFrame(st: State, sent: Sent, i: nat)
    requires Inv(st, sent) && i < CLIENTS
    ensures |st.slots| == CLIENTS && AtFrame(st, sent, st.slots[i])
  {
  }

  lemma SlotsAreOk(st: State, sent: Sent)
    requires Inv(st, sent)
    ensures SlotsOk(st.slots)
  {
    hide Of;
    forall i | 0 <= i < CLIENTS
      ensures SlotOk(st.slots[i])
    {
      assert AtFrame(st, sent, st.slots[i]);
    }
  }

  /** A whole packet is taken from slot `k`. */
  lemma TakeKeeps(st: State, sent: Sent, k: nat)
    requires AllSendable(sent) && Inv(st, sent) && k < CLIENTS && HasHeader(st.slots[k])
    requires |Of(st.returned, st.slots[k].conn)| < |sent(st.slots[k].conn).packets|
    ensures var (s, p) := Turn(st.slots[k], MAX_PACKET);
            p.Some? && Inv(st.(slots := st.slots[k := s], returned := st.returned + [(s.conn, p.value)]), sent)
  {
    hide AllSendable, Turn, Of, StreamOf;
    var conn := st.slots[k].conn;
    var d := |Of(st.returned, conn)|;
    SlotIsAtFrame(st, sent, k);
    NextFrame(st, sent, st.slots[k]);
    var s := Turn(st.slots[k], MAX_PACKET).0;
    var p := (conn, sent(conn).packets[d]);
    var after := st.(slots := st.slots[k := s], returned := st.returned + [p]);
    OfSnoc(st.returned, p, conn);
    OneMore(Of(st.returned, conn), sent(conn).packets);
    forall i | 0 <= i < CLIENTS
      ensures AtFrame(after, sent, after.slots[i])
    {
      assert AtFrame(st, sent, st.slots[i]);
      if i != k && st.slots[i].Taken? {
        OfSnoc(st.returned, p, st.slots[i].conn);
        assert st.slots[i].conn != conn;
      }
    }
    forall other: nat
      ensures Of(after.returned, other) <= sent(other).packets
      ensures other !in after.seen ==> Of(after.returned, other) == []
    {
      OfSnoc(st.returned, p, other);
    }
  }

  lemma OneMore(before: seq<bytes>, all: seq<bytes>)
    requires before <= all && |before| < |all|
    ensures before + [all[|before|]] <= all && |before + [all[|before|]]| == |before| + 1
  {
  }

  lemma ConnectKeeps(st: State, sent: Sent, conn: nat)
    requires Inv(st, sent) && Next(st, sent, Connect(conn)).Some?
    ensures Inv(Next(st, sent, Connect(conn)).value, sent)
  {
    hide Frames, Of;
    var after := Next(st, sent, Connect(conn)).value;
    forall i | 0 <= i < CLIENTS
      ensures AtFrame(after, sent, after.slots[i])
    {
      assert AtFrame(st, sent, st.slots[i]);
    }
  }

  lemma SetKeeps(st: State, sent: Sent, i: nat, s: Slot)
    requires Inv(st, sent) && i < CLIENTS && AtFrame(st, sent, s)
    requires s.Taken? ==> st.slots[i].Taken? && s.conn == st.slots[i].conn
    ensures Inv(st.(slots := st.slots[i := s]), sent)
  {
    hide StreamOf, Of;
    var after := st.(slots := st.slots[i := s]);
    forall k | 0 <= k < CLIENTS
      ensures AtFrame(after, sent, after.slots[k])
    {
      assert AtFrame(st, sent, st.slots[k]);
    }
  }

  function AfterRead(st: State, slots: seq<Slot>, p: Option<Packet>): State {
    st.(slots := slots, returned := if p.Some? then st.returned + [p.value] else st.returned)
  }

  /** The stream is at its end: all packets returned, a cut frame given up. */
  lemma EndIsAtFrame(st: State, sent: Sent, s: Slot)
    requires AtFrame(st, sent, s) && s.Taken? && |Of(st.returned, s.conn)| >= |sent(s.conn).packets|
    ensures AtFrame(st, sent, Taken(s.conn, [], 0))
  {
    hide Of, StreamOf;
  }

  lemma {:induction false} ReadKeeps(st: State, sent: Sent, i: nat)
    requires AllSendable(sent) && Inv(st, sent) && SlotsOk(st.slots) && i <= CLIENTS
    ensures var (slots, p) := ReadFrom(st.slots, i); Inv(AfterRead(st, slots, p), sent)
    decreases CLIENTS - i
  {
    hide Inv, AllSendable, AtFrame, Of, Turn, HasHeader;
    if i < CLIENTS {
      var s := st.slots[i];
      SlotIsAtFrame(st, sent, i);
      if !HasHeader(s) {
        NoHeaderNoTurn(s);
        assert st.slots[i := s] == st.slots;
        ReadKeeps(st, sent, i + 1);
      } else {
        HeaderIsTaken(s);
        NextFrame(st, sent, s);
        if |Of(st.returned, s.conn)| < |sent(s.conn).packets| {
          TakeKeeps(st, sent, i);
        } else {
          EndIsAtFrame(st, sent, s);
          SetKeeps(st, sent, i, Taken(s.conn, [], 0));
          ReadKeeps(st.(slots := st.slots[i := Taken(s.conn, [], 0)]), sent, i + 1);
        }
      }
    }
  }

  lemma NoHeaderNoTurn(s: Slot)
    requires SlotOk(s) && !HasHeader(s)
    ensures Turn(s, MAX_PACKET) == (s, None)
  {
  }

  lemma HeaderIsTaken(s: Slot)
    requires HasHeader(s)
    ensures s.Taken?
  {
  }

  lemma StepKeeps(st: State, sent: Sent, step: Step)
    requires AllSendable(sent) && Inv(st, sent) && Next(st, sent, step).Some?
    ensures Inv(Next(st, sent, step).value, sent)
  {
    hide Inv, AllSendable, AtFrame, ReadFrom;
    HasSlots(st, sent);
    match step
    case Connect(conn) =>
      ConnectKeeps(st, sent, conn);
    case Close(i) =>
      ClosedIsAtFrame(st, sent);
      SetKeeps(st, sent, i, Free);
    case Arrive(i, available) =>
      SlotIsAtFrame(st, sent, i);
      ArrivedIsAtFrame(st, sent, st.slots[i], available);
      SetKeeps(st, sent, i, st.slots[i].(available := available));
    case Read =>
      ReadKeeps(st, sent, 0);
  }

  lemma HasSlots(st: State, sent: Sent)
    requires Inv(st, sent)
    ensures |st.slots| == CLIENTS
  {
  }

  lemma ClosedIsAtFrame(st: State, sent: Sent)
    ensures AtFrame(st, sent, Free)
  {
  }

  lemma ArrivedIsAtFrame(st: State, sent: Sent, s: Slot, available: nat)
    requires s.Taken? && AtFrame(st, sent, s) && available <= |s.unread|
    ensures AtFrame(st, sent, s.(available := available))
  {
  }

  /** Where a whole packet is to be had, a read finds one. */
  lemma {:induction false} ReadFinds(st: State, sent: Sent, i: nat, k: nat)
    requires AllSendable(sent) && Inv(st, sent) && SlotsOk(st.slots) && i <= k < CLIENTS && HasHeader(st.slots[k])
    requires |Of(st.returned, st.slots[k].conn)| < |sent(st.slots[k].conn).packets|
    ensures ReadFrom(st.slots, i).1.Some?
    decreases CLIENTS - i
  {
    hide Inv, AllSendable, AtFrame, Of, Turn, HasHeader;
    var s := st.slots[i];
    SlotIsAtFrame(st, sent, i);
    if !HasHeader(s) {
      NoHeaderNoTurn(s);
      assert st.slots[i := s] == st.slots;
      ReadFinds(st, sent, i + 1, k);
    } else {
      HeaderIsTaken(s);
      NextFrame(st, sent, s);
      if |Of(st.returned, s.conn)| >= |sent(s.conn).packets| {
        EndIsAtFrame(st, sent, s);
        SetKeeps(st, sent, i, Taken(s.conn, [], 0));
        ReadFinds(st.(slots := st.slots[i := Taken(s.conn, [], 0)]), sent, i + 1, k);
      }
    }
  }

  lemma {:induction false} RunKeeps(sent: Sent, steps: seq<Step>)
    requires AllSendable(sent) && Run(Start(), sent, steps).Some?
    ensures Inv(Run(Start(), sent, steps).value, sent)
    decreases |steps|
  {
    hide AllSendable, Next;
    if steps != [] {
      RunKeeps(sent, steps[..|steps| - 1]);
      StepKeeps(Run(Start(), sent, steps[..|steps| - 1]).value, sent, steps[|steps| - 1]);
    }
  }

  // ---------------------------------------------------------------------------
  // Main results
  // ---------------------------------------------------------------------------

  /** Whatever arrives when and in whatever chunks, and wherever connections break: what has been returned of a
      connection is, in order and each packet whole and once, the beginning of what it sent whole; for a connection that
      is still open the rest is all to come. */
  lemma PacketsComeWholeAndInOrder(sent: Sent, steps: seq<Step>, conn: nat)
    requires AllSendable(sent) && Run(Start(), sent, steps).Some?
    ensures var st := Run(Start(), sent, steps).value;
            && Of(st.returned, conn) <= sent(conn).packets
            && forall i :: 0 <= i < |st.slots| && st.slots[i].Taken? && st.slots[i].conn == conn ==>
                 st.slots[i].unread == StreamOf(sent(conn), |Of(st.returned, conn)|)
                 || (st.slots[i].unread == [] && Of(st.returned, conn) == sent(conn).packets)
  {
    hide AllSendable, StreamOf, Of, Run;
    RunKeeps(sent, steps);
    var st := Run(Start(), sent, steps).value;
    forall i | 0 <= i < |st.slots| && st.slots[i].Taken? && st.slots[i].conn == conn
      ensures AtFrame(st, sent, st.slots[i])
    {
    }
  }

  /** When everything has arrived and readFrame finds nothing, every open connection has given all its whole packets. */
  lemma NothingIsLeftBehind(sent: Sent, steps: seq<Step>, i: nat)
    requires AllSendable(sent) && Run(Start(), sent, steps).Some?
    requires var st := Run(Start(), sent, steps).value;
             SlotsOk(st.slots) && ReadFrom(st.slots, 0).1 == None
             && i < CLIENTS && st.slots[i].Taken? && st.slots[i].available == |st.slots[i].unread|
    ensures var st := Run(Start(), sent, steps).value;
            Of(st.returned, st.slots[i].conn) == sent(st.slots[i].conn).packets
  {
    hide AllSendable, Of, Run, Inv, ReadFrom;
    RunKeeps(sent, steps);
    var st := Run(Start(), sent, steps).value;
    SlotIsAtFrame(st, sent, i);
    var conn := st.slots[i].conn;
    if Of(st.returned, conn) != sent(conn).packets {
      assert |sent(conn).packets[|Of(st.returned, conn)|..]| > 0;
      ReadFinds(st, sent, 0, i);
    }
  }

  /** A read is always possible, and takes exactly one packet when some open connection has one, header and all. */
  lemma ReadMakesProgress(sent: Sent, steps: seq<Step>, i: nat)
    requires AllSendable(sent) && Run(Start(), sent, steps).Some?
    ensures var st := Run(Start(), sent, steps).value;
            && Next(st, sent, Read).Some?
            && (i < |st.slots| && HasHeader(st.slots[i])
                && Of(st.returned, st.slots[i].conn) != sent(st.slots[i].conn).packets
                ==> |Next(st, sent, Read).value.returned| == |st.returned| + 1)
  {
    hide AllSendable, Of, Run, Inv, ReadFrom, AtFrame;
    RunKeeps(sent, steps);
    var st := Run(Start(), sent, steps).value;
    SlotsAreOk(st, sent);
    if i < |st.slots| && HasHeader(st.slots[i]) && Of(st.returned, st.slots[i].conn) != sent(st.slots[i].conn).packets {
      SlotIsAtFrame(st, sent, i);
      NotAllReturned(st, sent, st.slots[i]);
      ReadFinds(st, sent, 0, i);
    }
  }

  lemma NotAllReturned(st: State, sent: Sent, s: Slot)
    requires s.Taken? && AtFrame(st, sent, s) && Of(st.returned, s.conn) != sent(s.conn).packets
    ensures |Of(st.returned, s.conn)| < |sent(s.conn).packets|
  {
    hide Of, StreamOf;
  }
}
