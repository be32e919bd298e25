/** WebSocket frames of src/mqtt/mqtt_ws.cpp: wsSend and wsReadPayload (RFC 6455, sections 5.2 and 5.3).
    Sizes are 32-bit unsigned numbers on the ESP32. The connection takes bytes until it breaks (`room`), and reading
    fails only when no byte is left.
  */
module WsCodec {
  import opened Bytes
  import opened Wire

  const SIZE_LIMIT: nat := 0x1_0000_0000

  type MaskKey = m: seq<byte> | |m| == 4 witness [0, 0, 0, 0]

  // ---------------------------------------------------------------------------
  // What a frame is
  // ---------------------------------------------------------------------------

  /** The seven bits of a length that the shortest form has in the second octet. */
  function ShortLength(len: nat): nat {
    if len <= 125 then len else if len <= 0xFFFF then 126 else 127
  }

  /** The length as the form of these seven bits has it in the octets behind the second. */
  predicate HasLength(s: bytes, short: nat, len: nat)
    requires |s| >= 10 || (short == 126 && |s| >= 4) || short < 126
  {
    if short < 126 then len == short
    else if short == 126 then len == Word(s[2], s[3])
    else len == LongWord(s[2], s[3], s[4], s[5]) * 0x1_0000_0000 + LongWord(s[6], s[7], s[8], s[9])
  }

  function PayloadAt(short: nat): nat {
    if short == 126 then 4 else if short == 127 then 10 else 2
  }

  /** The octets are one final frame with this opcode and payload, masked octet by octet with the key if there is one.
      */
  ghost predicate IsFrame(s: bytes, opcode: nat, short: nat, key: Option<MaskKey>, data: bytes) {
    |s| >= 2 && s[0] == 0x80 + opcode && s[1] == short + (if key.Some? then 0x80 else 0) && short < 0x80
    && |s| == PayloadAt(short) + (if key.Some? then 4 else 0) + |data| && HasLength(s, short, |data|)
    && match key
       case None => s[PayloadAt(short)..] == data
       case Some(k) =>
         s[PayloadAt(short)..PayloadAt(short) + 4] == k
         && forall i :: 0 <= i < |data| ==> IsXor(s[PayloadAt(short) + 4 + i], k[i % 4], data[i])
  }

  // ---------------------------------------------------------------------------
  // The frames a client writes
  // ---------------------------------------------------------------------------

  /** `0x80 | b`. */
  function SetTop(b: byte): byte {
    if b < 0x80 then b + 0x80 else b
  }

  function LengthField(len: nat): bytes {
    if len <= 125 then [SetTop(len as byte)]
    else if len <= 0xFFFF then [SetTop(126)] + Be(len, 2)
    else [SetTop(127)] + Be(len, 8)
  }

  function Masked(data: bytes, mask: MaskKey): (m: bytes)
    ensures |m| == |data|
  {
    seq(|data|, i requires 0 <= i < |data| => Xor(data[i], mask[i % 4]))
  }

  function FrameOf(opcode: byte, mask: MaskKey, data: bytes): bytes {
    [SetTop(opcode)] + LengthField(|data|) + mask + Masked(data, mask)
  }

  // ---------------------------------------------------------------------------
  // Reading one frame from the front of a stream
  // ---------------------------------------------------------------------------

  datatype Frame = Frame(opcode: nat, payload: bytes, rest: bytes)

  function ExtendedLen(h1: byte): nat {
    if h1 % 128 == 126 then 2 else if h1 % 128 == 127 then 8 else 0
  }

  function HeadLen(h1: byte): nat {
    2 + ExtendedLen(h1) + (if h1 >= 128 then 4 else 0)
  }

  /** The announced payload length, as far as 32 bits hold it. */
  function Announced(s: bytes): nat
    requires |s| >= 2 && |s| >= HeadLen(s[1])
  {
    if ExtendedLen(s[1]) == 0 then s[1] % 128 else BeNumber(s[2..2 + ExtendedLen(s[1])]) % SIZE_LIMIT
  }

  function MaskOf(s: bytes): (mask: MaskKey)
    requires |s| >= 2 && |s| >= HeadLen(s[1])
    ensures |mask| == 4
  {
    if s[1] >= 128 then s[HeadLen(s[1]) - 4..HeadLen(s[1])] else [0, 0, 0, 0]
  }

  predicate HasFrame(s: bytes) {
    |s| >= 2 && |s| >= HeadLen(s[1]) && |s| >= HeadLen(s[1]) + Announced(s)
  }

  function ReadFrame(s: bytes, max: nat): Option<Frame> {
    if !HasFrame(s) then None
    else
      var h, len := HeadLen(s[1]), Announced(s);
      Some(Frame(s[0] % 16, Masked(s[h..h + Min(len, max)], MaskOf(s)), s[h + len..]))
  }

  // ---------------------------------------------------------------------------
  // Main results
  // ---------------------------------------------------------------------------

  lemma LengthFieldReads(len: nat)
    requires len < SIZE_LIMIT
    ensures var f := LengthField(len);
            f[0] >= 128 && |f| == 1 + ExtendedLen(f[0])
            && len == if ExtendedLen(f[0]) == 0 then f[0] % 128 else BeNumber(f[1..]) % SIZE_LIMIT
  {
    hide Be, BeNumber;
    PowersOf256();
    if len > 0xFFFF {
      BeRoundTrip(len, 8);
      assert ([0xFF] + Be(len, 8))[1..] == Be(len, 8);
    } else if len > 125 {
      BeRoundTrip(len, 2);
      assert ([0xFE] + Be(len, 2))[1..] == Be(len, 2);
    }
  }

  lemma MaskedTwice(data: bytes, mask: MaskKey, n: nat)
    requires n <= |data|
    ensures Masked(Masked(data, mask)[..n], mask) == data[..n]
  {
    forall i | 0 <= i < n
      ensures Xor(Xor(data[i], mask[i % 4]), mask[i % 4]) == data[i]
    {
      XorUndoes(data[i], mask[i % 4]);
    }
  }

  /** A written frame is read back as its opcode and its payload, cut to the buffer, and the stream is left exactly
      behind it. */
  lemma FrameRoundTrip(opcode: byte, mask: MaskKey, data: bytes, rest: bytes, max: nat)
    requires |data| < SIZE_LIMIT
    ensures ReadFrame(FrameOf(opcode, mask, data) + rest, max)
            == Some(Frame(opcode % 16, data[..Min(|data|, max)], rest))
  {
    hide Masked, LengthField, BeNumber;
    var f := LengthField(|data|);
    var m := Masked(data, mask);
    var s := FrameOf(opcode, mask, data) + rest;
    LengthFieldReads(|data|);
    var h := 1 + |f| + 4;
    assert s[1] == f[0];
    assert s[2..1 + |f|] == f[1..];
    assert s[h - 4..h] == mask;
    assert s[h..h + Min(|data|, max)] == m[..Min(|data|, max)];
    assert s[h + |data|..] == rest;
    MaskedTwice(data, mask, Min(|data|, max));
  }

  lemma BeNumberOfTwo(s: bytes)
    requires |s| == 2
    ensures BeNumber(s) == Word(s[0], s[1])
  {
    BeSnoc([], s[0]);
    BeSnoc([s[0]], s[1]);
    assert s == [] + [s[0]] + [s[1]];
  }

  lemma BeNumberOfFour(s: bytes)
    requires |s| == 4
    ensures BeNumber(s) == LongWord(s[0], s[1], s[2], s[3])
  {
    BeNumberOfTwo(s[..2]);
    BeSnoc(s[..2], s[2]);
    BeSnoc(s[..3], s[3]);
    assert s[..3] == s[..2] + [s[2]] && s == s[..3] + [s[3]];
  }

  lemma BeNumberOfEight(s: bytes)
    requires |s| == 8
    ensures BeNumber(s) == LongWord(s[0], s[1], s[2], s[3]) * 0x1_0000_0000 + LongWord(s[4], s[5], s[6], s[7])
  {
    hide BeNumber;
    BeNumberOfFour(s[..4]);
    BeSnoc(s[..4], s[4]);
    BeSnoc(s[..5], s[5]);
    BeSnoc(s[..6], s[6]);
    BeSnoc(s[..7], s[7]);
    assert s[..5] == s[..4] + [s[4]] && s[..6] == s[..5] + [s[5]] && s[..7] == s[..6] + [s[6]] && s == s[..7] + [s[7]];
  }

  /** The length in the octets behind the second is the one the reader computes, as far as 32 bits hold it. */
  lemma LengthIsAnnounced(s: bytes, short: nat, len: nat)
    requires |s| >= 2 && short < 0x80 && s[1] % 128 == short && |s| >= HeadLen(s[1]) && len < SIZE_LIMIT
    ensures |s| >= PayloadAt(short) && (HasLength(s, short, len) ==> Announced(s) == len)
  {
    hide BeNumber, Word, LongWord;
    if short == 126 {
      BeNumberOfTwo(s[2..4]);
      assert s[2..4][0] == s[2] && s[2..4][1] == s[3];
    } else if short == 127 {
      BeNumberOfEight(s[2..10]);
      assert forall k :: 0 <= k < 8 ==> s[2..10][k] == s[2 + k];
    }
  }

  lemma MaskingIs(data: bytes, mask: MaskKey, wire: bytes)
    requires |wire| == |data|
    ensures (forall i :: 0 <= i < |data| ==> IsXor(wire[i], mask[i % 4], data[i])) <==> data == Masked(wire, mask)
    ensures wire == Masked(data, mask) ==> data == Masked(wire, mask)
  {
    hide IsXor, Xor;
    forall i | 0 <= i < |data|
      ensures IsXor(wire[i], mask[i % 4], data[i]) <==> data[i] == Xor(wire[i], mask[i % 4])
    {
      XorIs(wire[i], mask[i % 4], data[i]);
    }
    if wire == Masked(data, mask) {
      MaskedTwice(data, mask, |data|);
      assert wire[..|data|] == wire && data[..|data|] == data;
    }
  }

  /** A frame that is sent is one of section 5.2, in the shortest length form, and unmasks to the data. */
  lemma WrittenIsAFrame(opcode: byte, mask: MaskKey, data: bytes)
    requires opcode < 16 && |data| < SIZE_LIMIT
    ensures IsFrame(FrameOf(opcode, mask, data), opcode, ShortLength(|data|), Some(mask), data)
  {
    hide Masked, IsXor, LengthField, HasLength;
    var len := |data|;
    var f, s := LengthField(len), FrameOf(opcode, mask, data);
    LengthFieldIs(len);
    var at := PayloadAt(ShortLength(len));
    SameLength([0] + f, s, ShortLength(len), len);
    assert |f| == at - 1 && s[1..at] == f;
    assert s[at..at + 4] == mask && s[at + 4..] == Masked(data, mask);
    assert forall k :: 1 <= k < at ==> s[k] == f[k - 1];
    assert forall i :: 0 <= i < len ==> s[at + 4 + i] == Masked(data, mask)[i];
    MaskingIs(data, mask, Masked(data, mask));
  }

  lemma LengthFieldIs(len: nat)
    requires len < SIZE_LIMIT
    ensures var f, short := LengthField(len), ShortLength(len);
            |f| == PayloadAt(short) - 1 && f[0] == 0x80 + short && HasLength([0] + f, short, len)
  {
    hide BeNumber, Be, HasLength;
    if len > 0xFFFF {
      EightOctets(len);
    } else if len > 125 {
      TwoOctetsMore(len);
    } else {
      NoMoreOctets(len);
    }
  }

  lemma EightOctets(len: nat)
    requires len < SIZE_LIMIT
    ensures HasLength([0] + ([0xFF] + Be(len, 8)), 127, len)
  {
    hide BeNumber, Be, LongWord, Word;
    PowersOf256();
    BeRoundTrip(len, 8);
    BeNumberOfEight(Be(len, 8));
    var s := [0] + ([0xFF] + Be(len, 8));
    assert forall k :: 0 <= k < 8 ==> s[2 + k] == Be(len, 8)[k];
  }

  lemma TwoOctetsMore(len: nat)
    requires len <= 0xFFFF
    ensures HasLength([0] + ([0xFE] + Be(len, 2)), 126, len)
  {
    hide BeNumber, Be, LongWord, Word;
    PowersOf256();
    BeRoundTrip(len, 2);
    BeNumberOfTwo(Be(len, 2));
    var s := [0] + ([0xFE] + Be(len, 2));
    assert s[2] == Be(len, 2)[0] && s[3] == Be(len, 2)[1];
  }

  lemma NoMoreOctets(len: nat)
    requires len <= 125
    ensures HasLength([0] + [SetTop(len as byte)], len, len)
  {
  }

  lemma SameLength(s: bytes, t: bytes, short: nat, len: nat)
    requires short < 0x80 && |s| >= PayloadAt(short) && |t| >= PayloadAt(short)
    requires forall k :: 1 <= k < PayloadAt(short) ==> s[k] == t[k]
    ensures HasLength(s, short, len) <==> HasLength(t, short, len)
  {
    hide LongWord, Word;
  }

  /** Any final frame, masked or not and in any length form, is read as its opcode and its payload, cut to the buffer,
      and the stream is left right behind it. */
  lemma FrameIsRead(f: bytes, opcode: nat, short: nat, key: Option<MaskKey>, data: bytes, rest: bytes, max: nat)
    requires IsFrame(f, opcode, short, key, data) && opcode < 16 && |data| < SIZE_LIMIT
    ensures ReadFrame(f + rest, max) == Some(Frame(opcode, data[..Min(|data|, max)], rest))
  {
    hide Masked, IsXor, BeNumber, Word, LongWord, Announced, MaskOf;
    var s, at := f + rest, PayloadAt(short);
    var h := at + if key.Some? then 4 else 0;
    assert s[0] == f[0] && s[1] == f[1] && HeadLen(s[1]) == h;
    assert forall k :: 0 <= k < h ==> s[k] == f[k];
    LengthIsAnnounced(s, short, |data|);
    var n := Min(|data|, max);
    assert s[h + |data|..] == rest;
    PayloadIsRead(f, opcode, short, key, data, rest, n);
  }

  lemma PayloadIsRead(f: bytes, opcode: nat, short: nat, key: Option<MaskKey>, data: bytes, rest: bytes, n: nat)
    requires IsFrame(f, opcode, short, key, data) && n <= |data|
    ensures var s, h := f + rest, HeadLen(f[1]);
            s[1] == f[1] && |s| >= h + n && Masked(s[h..h + n], MaskOf(s)) == data[..n]
  {
    hide Masked, IsXor, HasLength, Word, LongWord;
    var s, at, h := f + rest, PayloadAt(short), HeadLen(f[1]);
    assert h == at + (if key.Some? then 4 else 0);
    InFront(f, rest, h, h + n);
    DropTwice(f, h, h + n);
    if key.Some? {
      InFront(f, rest, at, at + 4);
      assert forall i :: 0 <= i < |data| ==> f[h..][i] == f[at + 4 + i];
      MaskingIs(data, key.value, f[h..]);
      MaskedPrefix(f[h..], key.value, n);
    } else {
      UnmaskedAsIs(s, s[h..h + n]);
    }
  }

  lemma InFront(f: bytes, rest: bytes, i: nat, j: nat)
    requires i <= j <= |f|
    ensures (f + rest)[i..j] == f[i..j]
  {
    var s, t := (f + rest)[i..j], f[i..j];
    assert |s| == |t| && forall k :: 0 <= k < |s| ==> s[k] == t[k];
  }

  lemma MaskedIs(data: bytes, mask: MaskKey)
    ensures forall i :: 0 <= i < |data| ==> IsXor(data[i], mask[i % 4], Masked(data, mask)[i])
  {
    hide IsXor, Xor;
    forall i | 0 <= i < |data|
      ensures IsXor(data[i], mask[i % 4], Xor(data[i], mask[i % 4]))
    {
      XorIs(data[i], mask[i % 4], Xor(data[i], mask[i % 4]));
    }
  }

  lemma MaskedPrefix(data: bytes, mask: MaskKey, n: nat)
    requires n <= |data|
    ensures Masked(data[..n], mask) == Masked(data, mask)[..n]
  {
    hide Xor;
  }

  datatype Sent = Sent(opcode: byte, mask: MaskKey, data: bytes)

  function Written(fs: seq<Sent>): bytes {
    if fs == [] then [] else FrameOf(fs[0].opcode, fs[0].mask, fs[0].data) + Written(fs[1..])
  }

  /** What a reader with buffers of `max` bytes is given. */
  function Received(fs: seq<Sent>, max: nat): seq<(nat, bytes)> {
    if fs == [] then []
    else [(fs[0].opcode % 16, fs[0].data[..Min(|fs[0].data|, max)])] + Received(fs[1..], max)
  }

  /** The first `n` frames of a stream and what is left of it. */
  function ReadFrames(s: bytes, max: nat, n: nat): Option<(seq<(nat, bytes)>, bytes)> {
    if n == 0 then Some(([], s))
    else
      match ReadFrame(s, max)
      case None => None
      case Some(f) =>
        match ReadFrames(f.rest, max, n - 1)
        case None => None
        case Some(r) => Some(([(f.opcode, f.payload)] + r.0, r.1))
  }

  /** Any sequence of frames comes back frame by frame, whatever the masks and the length forms. */
  lemma {:induction false} StreamRoundTrip(fs: seq<Sent>, rest: bytes, max: nat)
    requires forall i :: 0 <= i < |fs| ==> |fs[i].data| < SIZE_LIMIT
    ensures ReadFrames(Written(fs) + rest, max, |fs|) == Some((Received(fs, max), rest))
  {
    hide FrameOf, ReadFrame;
    if fs == [] {
      assert Written(fs) + rest == rest;
    } else {
      var head := FrameOf(fs[0].opcode, fs[0].mask, fs[0].data);
      assert Written(fs) + rest == head + (Written(fs[1..]) + rest);
      FrameRoundTrip(fs[0].opcode, fs[0].mask, fs[0].data, Written(fs[1..]) + rest, max);
      StreamRoundTrip(fs[1..], rest, max);
    }
  }

  /** Bytes that arrive later change nothing about a frame that is already there. */
  lemma LaterBytesDoNotMatter(s: bytes, later: bytes, max: nat)
    requires HasFrame(s)
    ensures ReadFrame(s + later, max) == Some(ReadFrame(s, max).value.(rest := ReadFrame(s, max).value.rest + later))
  {
    hide Masked, BeNumber;
    var t := s + later;
    var h := HeadLen(s[1]);
    assert t[..h] == s[..h];
    assert t[2..2 + ExtendedLen(s[1])] == s[2..2 + ExtendedLen(s[1])];
    if s[1] >= 128 {
      assert t[h - 4..h] == s[h - 4..h];
    }
    var len := Announced(s);
    assert t[h..h + Min(len, max)] == s[h..h + Min(len, max)];
    assert t[h + len..] == s[h + len..] + later;
  }

  /** `(len << 8) | e` in 32 bits. */
  lemma ShiftKeepsLow(n: nat, e: byte)
    ensures n % SIZE_LIMIT * 256 % SIZE_LIMIT + e == (256 * n + e) % SIZE_LIMIT
  {
  }

  lemma HeadParts(s: bytes)
    requires |s| >= 2 && |s| >= HeadLen(s[1])
    ensures Announced(s) == if ExtendedLen(s[1]) == 0 then s[1] % 128
                            else BeNumber(s[2..2 + ExtendedLen(s[1])]) % SIZE_LIMIT
    ensures MaskOf(s) == if s[1] >= 128 then s[2 + ExtendedLen(s[1])..HeadLen(s[1])] else [0, 0, 0, 0]
  {
  }

  lemma DropTwice(s: bytes, i: nat, j: nat)
    requires i <= j <= |s|
    ensures s[i..][j - i..] == s[j..] && s[i..][..j - i] == s[i..j]
  {
  }

  // ---------------------------------------------------------------------------
  // The socket
  // ---------------------------------------------------------------------------

  class Socket {
    var sent: bytes       // everything the peer has been sent
    var room: nat         // bytes the connection still takes before it breaks
    var incoming: bytes   // what the peer has sent and nobody has read

    method Write(b: byte) returns (ok: bool)
      modifies this`sent, this`room
      ensures ok == (old(room) > 0)
      ensures ok ==> sent == old(sent) + [b] && room == old(room) - 1
      ensures !ok ==> sent == old(sent) && room == old(room)
    {
      ok := room > 0;
      if ok {
        sent, room := sent + [b], room - 1;
      }
    }

    method WriteAll(buf: array<byte>, n: nat) returns (ok: bool)
      requires n <= buf.Length
      modifies this`sent, this`room
      ensures ok == (n <= old(room))
      ensures sent == old(sent) + buf[..Min(n, old(room))] && room == old(room) - Min(n, old(room))
    {
      var i := 0;
      while i < n
        invariant 0 <= i <= n && i <= old(room)
        invariant sent == old(sent) + buf[..i] && room == old(room) - i
      {
        var w := Write(buf[i]);
        if !w {
          return false;
        }
        i := i + 1;
      }
      ok := true;
    }

    method ReadByte() returns (ok: bool, b: byte)
      modifies this`incoming
      ensures ok == (old(incoming) != [])
      ensures ok ==> b == old(incoming)[0] && incoming == old(incoming)[1..]
      ensures !ok ==> incoming == old(incoming)
    {
      ok, b := incoming != [], 0;
      if ok {
        b := incoming[0];
        incoming := incoming[1..];
      }
    }

    static method PutLong(len: nat, hdr: array<byte>) returns (o: nat)
      requires hdr.Length == 14
      modifies hdr
      ensures o == 10 && hdr[..2] == old(hdr[..2]) && hdr[2..o] == Be(len, 8)
    {
      hide Be, Shifted;
      o := 2;
      for i := 0 to 8
        invariant o == 2 + i && hdr[..2] == old(hdr[..2])
        invariant forall k :: 0 <= k < i ==> hdr[2 + k] == Be(len, 8)[k]
      {
        hdr[o] := Shifted(len, 7 - i) % 256;
        BeAt(len, 8, i);
        o := o + 1;
      }
    }

    /** The header in `hdr`; its length. */
    static method PutHeader(opcode: byte, mask: MaskKey, len: nat, hdr: array<byte>) returns (o: nat)
      requires hdr.Length == 14 && len < SIZE_LIMIT
      modifies hdr
      ensures o <= 14 && hdr[..o] == [SetTop(opcode)] + LengthField(len) + mask
    {
      hide Be, Shifted;
      hdr[0] := SetTop(opcode);
      if len <= 125 {
        hdr[1] := SetTop(len as byte);
        o := 2;
      } else if len <= 0xFFFF {
        hdr[1], hdr[2], hdr[3] := SetTop(126), len / 256 % 256, len % 256;
        o := 4;
        TwoOctets(len);
      } else {
        hdr[1] := SetTop(127);
        o := PutLong(len, hdr);
      }
      assert hdr[..o] == [SetTop(opcode)] + LengthField(len);
      hdr[o], hdr[o + 1], hdr[o + 2], hdr[o + 3] := mask[0], mask[1], mask[2], mask[3];
      o := o + 4;
      assert hdr[o - 4..o] == mask;
      assert hdr[..o] == hdr[..o - 4] + hdr[o - 4..o];
    }

    method WriteMasked(mask: MaskKey, data: array<byte>, len: nat) returns (ok: bool)
      requires len <= data.Length
      modifies this`sent, this`room
      ensures var m := Masked(data[..len], mask);
              && ok == (len <= old(room))
              && sent == old(sent) + m[..Min(len, old(room))] && room == old(room) - Min(len, old(room))
      ensures ok ==> forall i :: 0 <= i < len ==> IsXor(data[i], mask[i % 4], sent[|old(sent)| + i])
    {
      hide Xor, IsXor;
      MaskedIs(data[..len], mask);
      ghost var m := Masked(data[..len], mask);
      for i := 0 to len
        invariant i <= old(room)
        invariant sent == old(sent) + m[..i] && room == old(room) - i
      {
        ok := Write(Xor(data[i], mask[i % 4]));
        if !ok {
          return;
        }
        assert m[..i + 1] == m[..i] + [m[i]];
      }
      ok := true;
    }

    /** The frame goes out whole, or its beginning does and the connection is broken. */
    method Send(opcode: byte, mask: MaskKey, data: array<byte>, len: nat) returns (ok: bool)
      requires len <= data.Length && len < SIZE_LIMIT
      modifies this`sent, this`room
      ensures var f := FrameOf(opcode, mask, data[..len]);
              && ok == (|f| <= old(room))
              && sent == old(sent) + f[..Min(|f|, old(room))] && room == old(room) - Min(|f|, old(room))
      ensures ok && opcode < 16 ==> IsFrame(sent[|old(sent)|..], opcode, ShortLength(len), Some(mask), data[..len])
    {
      hide LengthField, Masked, IsFrame;
      if opcode < 16 {
        WrittenIsAFrame(opcode, mask, data[..len]);
      }
      ghost var f := FrameOf(opcode, mask, data[..len]);
      assert f[..|f|] == f;
      var hdr := new byte[14];
      var o := PutHeader(opcode, mask, len, hdr);
      ghost var head, m := hdr[..o], Masked(data[..len], mask);
      ok := WriteAll(hdr, o);
      if ok {
        ok := WriteMasked(mask, data, len);
      }
      CutOfTwo(head, m, old(room));
      Behind(old(sent), f[..Min(|f|, old(room))]);
    }

    method ReadInto(out: array<byte>, n: nat) returns (ok: bool)
      requires n <= out.Length
      modifies this`incoming, out
      ensures ok == (n <= |old(incoming)|)
      ensures ok ==> out[..n] == old(incoming)[..n] && incoming == old(incoming)[n..]
      ensures !ok ==> incoming == []
    {
      for k := 0 to n
        invariant k <= |old(incoming)|
        invariant out[..k] == old(incoming)[..k] && incoming == old(incoming)[k..]
      {
        var b: byte;
        ok, b := ReadByte();
        if !ok {
          return;
        }
        out[k] := b;
      }
      ok := true;
    }

    method Drain(n: nat) returns (ok: bool)
      modifies this`incoming
      ensures ok == (n <= |old(incoming)|)
      ensures ok ==> incoming == old(incoming)[n..]
      ensures !ok ==> incoming == []
    {
      for k := 0 to n
        invariant k <= |old(incoming)| && incoming == old(incoming)[k..]
      {
        var b: byte;
        ok, b := ReadByte();
        if !ok {
          return;
        }
      }
      ok := true;
    }

    static method ShiftedIn(e: array<byte>) returns (len: nat)
      ensures len == BeNumber(e[..]) % SIZE_LIMIT
    {
      len := 0;
      for k := 0 to e.Length
        invariant len == BeNumber(e[..k]) % SIZE_LIMIT
      {
        BeSnoc(e[..k], e[k]);
        assert e[..k + 1] == e[..k] + [e[k]];
        ShiftKeepsLow(BeNumber(e[..k]), e[k]);
        len := len * 256 % SIZE_LIMIT + e[k];
      }
      assert e[..e.Length] == e[..];
    }

    /** The payload length: the seven bits of the second byte, or two or eight bytes more. The eight-byte form shifts
        in 32 bits, so what does not fit is lost. */
    method ReadLength(h1: byte) returns (ok: bool, len: nat)
      modifies this`incoming
      ensures ok == (ExtendedLen(h1) <= |old(incoming)|)
      ensures ok ==> incoming == old(incoming)[ExtendedLen(h1)..]
      ensures ok ==> len == if ExtendedLen(h1) == 0 then h1 % 128
                            else BeNumber(old(incoming)[..ExtendedLen(h1)]) % SIZE_LIMIT
      ensures !ok ==> incoming == []
    {
      hide BeNumber;
      len := h1 % 128;
      ok := true;
      if len == 126 {
        var e := new byte[2];
        ok := ReadInto(e, 2);
        if ok {
          len := Word(e[0], e[1]);
          BeNumberOfTwo(e[..2]);
          assert Word(e[0], e[1]) < SIZE_LIMIT;
        }
      } else if len == 127 {
        var e := new byte[8];
        ok := ReadInto(e, 8);
        if ok {
          len := ShiftedIn(e);
          assert e[..] == e[..8];
        }
      }
    }

    /** Everything in front of the payload. */
    method ReadHead() returns (ok: bool, opcode: nat, masked: bool, len: nat, mask: array<byte>)
      modifies this`incoming
      ensures fresh(mask) && mask.Length == 4
      ensures var s := old(incoming);
              && ok == (|s| >= 2 && |s| >= HeadLen(s[1]))
              && (ok ==> opcode == s[0] % 16 && masked == (s[1] >= 128) && len == Announced(s) && mask[..] == MaskOf(s)
                         && incoming == s[HeadLen(s[1])..])
              && (!ok ==> incoming == [])
    {
      hide BeNumber, Announced, MaskOf;
      opcode, masked, len, mask := 0, false, 0, new byte[4](_ => 0);
      ghost var s := old(incoming);
      var h0: byte, h1: byte;
      ok, h0 := ReadByte();
      if !ok {
        return;
      }
      ok, h1 := ReadByte();
      if !ok {
        return;
      }
      opcode, masked := h0 % 16, h1 >= 128;
      DropTwice(s, 1, 2);
      ok, len := ReadLength(h1);
      if !ok {
        return;
      }
      DropTwice(s, 2, 2 + ExtendedLen(h1));
      if masked {
        ok := ReadInto(mask, 4);
        if !ok {
          return;
        }
        DropTwice(s, 2 + ExtendedLen(h1), HeadLen(h1));
        assert mask[..] == mask[..4];
      }
      HeadParts(s);
    }

    static method Unmask(out: array<byte>, n: nat, mask: array<byte>)
      requires n <= out.Length && mask.Length == 4 && mask != out
      modifies out
      ensures out[..n] == Masked(old(out[..n]), mask[..])
      ensures forall i :: 0 <= i < n ==> IsXor(old(out[i]), mask[i % 4], out[i])
    {
      hide Xor, IsXor;
      MaskedIs(out[..n], mask[..]);
      for k := 0 to n
        invariant forall i :: 0 <= i < k ==> out[i] == Xor(old(out[i]), mask[i % 4])
        invariant forall i :: k <= i < n ==> out[i] == old(out[i])
      {
        out[k] := Xor(out[k], mask[k % 4]);
      }
    }

    /** The payload; what does not fit is read and dropped. */
    method ReadBody(out: array<byte>, take: nat, len: nat) returns (ok: bool)
      requires take <= out.Length && take <= len
      modifies this`incoming, out
      ensures ok == (len <= |old(incoming)|)
      ensures ok ==> out[..take] == old(incoming)[..take] && incoming == old(incoming)[len..]
      ensures !ok ==> incoming == []
    {
      ok := ReadInto(out, take);
      if !ok {
        return;
      }
      ok := Drain(len - take);
      if ok {
        DropTwice(old(incoming), take, len);
      }
    }

    /** A frame that is there is taken off the stream and its payload put into `out`; otherwise the stream runs dry. */
    method ReadPayload(out: array<byte>, max: nat) returns (ok: bool, got: nat, opcode: nat)
      requires max <= out.Length
      modifies this`incoming, out
      ensures ok == HasFrame(old(incoming)) && got <= max
      ensures ok ==> ReadFrame(old(incoming), max) == Some(Frame(opcode, out[..got], incoming))
      ensures !ok ==> got == 0 && incoming == []
    {
      hide BeNumber, Masked, Announced, MaskOf;
      ghost var s := old(incoming);
      var masked: bool, len: nat, mask: array<byte>;
      ok, opcode, masked, len, mask := ReadHead();
      got := 0;
      if !ok {
        return;
      }
      var take := Min(len, max);
      ok := ReadBody(out, take, len);
      if !ok {
        return;
      }
      got := take;
      ghost var h := HeadLen(s[1]);
      DropTwice(s, h, h + take);
      DropTwice(s, h, h + len);
      if masked {
        Unmask(out, take, mask);
      } else {
        UnmaskedAsIs(s, s[h..h + take]);
      }
    }
  }

  lemma UnmaskedAsIs(s: bytes, data: bytes)
    requires |s| >= 2 && |s| >= HeadLen(s[1]) && s[1] < 128
    ensures Masked(data, MaskOf(s)) == data
  {
    forall i | 0 <= i < |data|
      ensures Xor(data[i], 0) == data[i]
    {
      XorUndoes(data[i], 0);
    }
  }

  lemma Behind(a: bytes, b: bytes)
    ensures (a + b)[|a|..] == b
  {
  }

  lemma CutOfTwo(a: bytes, b: bytes, n: nat)
    ensures n <= |a| ==> (a + b)[..n] == a[..n]
    ensures n > |a| && n <= |a| + |b| ==> (a + b)[..n] == a + b[..n - |a|]
  {
  }
}
