/** What the strings of json.hpp hold: the UTF-8 of the code points written, whenever the document is UTF-8
    and leaves no surrogate unpaired.
  */
module JsonUtf8 {
  import opened Bytes
  import opened JsonSyntax
  import opened JsonReader

  // ---------------------------------------------------------------------------
  // An independent decoder: the grammar of RFC 3629, section 4
  // ---------------------------------------------------------------------------

  predicate IsScalar(v: nat) {
    v <= 0x10FFFF && !(0xD800 <= v <= 0xDFFF)
  }

  predicate IsTail(c: byte) {
    0x80 <= c <= 0xBF
  }

  /** The bits of an octet above its marker. */
  function Bits(c: byte, marker: byte): nat
    requires marker <= c
  {
    c - marker
  }

  /** The first code point of `t` and the number of octets it takes. */
  function Decode(t: bytes): Option<(nat, nat)> {
    if t == [] then None
    else if t[0] < 0x80 then Some((t[0], 1))
    else if 0xC2 <= t[0] <= 0xDF && |t| >= 2 && IsTail(t[1]) then
      Some((Bits(t[0], 0xC0) * 64 + Bits(t[1], 0x80), 2))
    else if 0xE0 <= t[0] <= 0xEF && |t| >= 3 && IsTail(t[1]) && IsTail(t[2])
         && (t[0] == 0xE0 ==> t[1] >= 0xA0) && (t[0] == 0xED ==> t[1] <= 0x9F) then
      Some((Bits(t[0], 0xE0) * 4096 + Bits(t[1], 0x80) * 64 + Bits(t[2], 0x80), 3))
    else if 0xF0 <= t[0] <= 0xF4 && |t| >= 4 && IsTail(t[1]) && IsTail(t[2]) && IsTail(t[3])
         && (t[0] == 0xF0 ==> t[1] >= 0x90) && (t[0] == 0xF4 ==> t[1] <= 0x8F) then
      Some((Bits(t[0], 0xF0) * 262144 + Bits(t[1], 0x80) * 4096 + Bits(t[2], 0x80) * 64 + Bits(t[3], 0x80), 4))
    else None
  }

  lemma DecodeBounds(t: bytes)
    ensures Decode(t).Some? ==> 1 <= Decode(t).value.1 <= |t| && IsScalar(Decode(t).value.0)
  {
  }

  /** `t` is well-formed UTF-8. */
  predicate IsUtf8(t: bytes)
    decreases |t|
  {
    t == [] || (Decode(t).Some? && 1 <= Decode(t).value.1 <= |t| && IsUtf8(t[Decode(t).value.1..]))
  }

  lemma Quotients(v: nat)
    ensures v == v / 64 * 64 + v % 64
    ensures v / 64 == v / 4096 * 64 + v / 64 % 64
    ensures v / 4096 == v / 262144 * 64 + v / 4096 % 64
  {
  }

  /** Decoding undoes appendUtf8 for every scalar value, with anything after it. */
  lemma DecodesScalar(v: nat, t: bytes)
    requires IsScalar(v)
    ensures Decode(Utf8(v) + t) == Some((v, |Utf8(v)|))
  {
    Quotients(v);
    if v < 0x800 {
    } else if v < 0x10000 {
      DecodesThree(v / 4096, v / 64 % 64, v % 64, t);
    } else {
      DecodesFour(v / 262144, v / 4096 % 64, v / 64 % 64, v % 64, t);
    }
  }

  lemma DecodesThree(a: nat, b: nat, c: nat, t: bytes)
    requires a < 16 && b < 64 && c < 64 && (a == 0 ==> b >= 32) && (a == 13 ==> b < 32)
    ensures Decode([0xE0 + a, 0x80 + b, 0x80 + c] + t) == Some((a * 4096 + b * 64 + c, 3))
  {
  }

  lemma DecodesFour(a: nat, b: nat, c: nat, d: nat, t: bytes)
    requires a < 5 && b < 64 && c < 64 && d < 64 && (a == 0 ==> b >= 16) && (a == 4 ==> b < 16)
    ensures Decode([0xF0 + a, 0x80 + b, 0x80 + c, 0x80 + d] + t) == Some((a * 262144 + b * 4096 + c * 64 + d, 4))
  {
  }

  /** The octets appendUtf8 writes for an unpaired surrogate are not UTF-8. */
  lemma SurrogateIsMalformed(v: nat, t: bytes)
    requires 0xD800 <= v <= 0xDFFF
    ensures Decode(Utf8(v) + t).None?
  {
  }

  lemma DecodeLooksAt(t: bytes, u: bytes)
    requires Decode(t).Some? && Decode(t).value.1 <= |t|
    ensures Decode(t[..Decode(t).value.1] + u) == Decode(t)
  {
  }

  // ---------------------------------------------------------------------------
  // Escaped scalar values
  // ---------------------------------------------------------------------------

  /** The piece is a way to write `v` with \u escapes, in hex digits of either case (RFC 8259, section 7). */
  predicate Escapes(p: Piece, v: nat) {
    PieceOk(p)
    && ((p.Hex? && Hex4(p.digits) == v) || (p.Pair? && Combine(Hex4(p.high), Hex4(p.low)) == v))
  }

  function HexChar(v: nat): (c: byte)
    requires v < 16
    ensures IsHex(c) && HexDigit(c) == v
  {
    if v < 10 then 0x30 + v else 0x61 + v - 10
  }

  lemma HexQuotients(v: nat)
    ensures v == v / 16 * 16 + v % 16
    ensures v / 16 == v / 256 * 16 + v / 16 % 16
    ensures v / 256 == v / 4096 * 16 + v / 256 % 16
  {
  }

  function HexChars(v: nat): (d: bytes)
    requires v < 0x10000
    ensures IsHex4(d) && Hex4(d) == v
  {
    HexQuotients(v);
    [HexChar(v / 4096), HexChar(v / 256 % 16), HexChar(v / 16 % 16), HexChar(v % 16)]
  }

  /** Every scalar value has an escape, and it is a pair exactly from U+10000 up. */
  lemma EveryScalarHasAnEscape(v: nat)
    requires IsScalar(v)
    ensures exists p: Piece :: Escapes(p, v)
    ensures forall p: Piece :: Escapes(p, v) ==> (p.Pair? <==> v >= 0x10000)
  {
    if v < 0x10000 {
      assert Escapes(Hex(HexChars(v)), v);
    } else {
      var h, l := 0xD800 + (v - 0x10000) / 1024, 0xDC00 + (v - 0x10000) % 1024;
      assert Combine(h, l) == v;
      assert Escapes(Pair(HexChars(h), HexChars(l)), v);
    }
  }

  /** However a scalar value is escaped, the string read is its UTF-8, which decodes to the value. */
  lemma EscapedScalarReads(p: Piece, v: nat, t: bytes)
    requires IsScalar(v) && Escapes(p, v)
    ensures ReadString(StringThen([p], t)) == Parsed([p], t) && PiecesOk([p])
    ensures PiecesValue([p]) == Utf8(v) && Decode(PiecesValue([p])) == Some((v, |Utf8(v)|))
  {
    assert PiecesOk([p]);
    PiecesReads([p], t);
    DecodesScalar(v, []);
    assert Utf8(v) + [] == Utf8(v);
  }

  // ---------------------------------------------------------------------------
  // Whole strings
  // ---------------------------------------------------------------------------

  /** An escape of a surrogate that is not half of a pair. */
  predicate IsUnpaired(p: Piece) {
    p.Hex? && IsHex4(p.digits) && 0xD800 <= Hex4(p.digits) <= 0xDFFF
  }

  predicate AllPaired(ps: seq<Piece>) {
    forall k :: 0 <= k < |ps| ==> !IsUnpaired(ps[k])
  }

  lemma Utf8Head(a: bytes, u: bytes)
    requires Decode(a + u).Some? && Decode(a + u).value.1 == |a|
    ensures IsUtf8(a + u) <==> IsUtf8(u)
  {
  }

  lemma {:induction false} AsciiSkip(a: bytes, u: bytes)
    requires forall k :: 0 <= k < |a| ==> a[k] < 0x80
    ensures IsUtf8(a + u) <==> IsUtf8(u)
  {
    if a == [] {
      assert a + u == u;
    } else {
      AsciiSkip(a[1..], u);
      assert a + u == [a[0]] + (a[1..] + u);
      Utf8Head([a[0]], a[1..] + u);
    }
  }

  lemma HexIsAscii(d: bytes)
    requires IsHex4(d)
    ensures forall k :: 0 <= k < |d| ==> d[k] < 0x80
  {
  }

  /** An escape is written in ASCII. */
  lemma EscapeSkip(p: Piece, u: bytes)
    requires PieceOk(p) && !p.Raw?
    ensures IsUtf8(PieceThen(p, u)) <==> IsUtf8(u)
  {
    match p
    case Short(e) => AsciiSkip([BACKSLASH, e], u);
    case Hex(d) =>
      HexIsAscii(d);
      AsciiSkip(d, u);
      AsciiSkip([BACKSLASH, LETTER_U], d + u);
    case Pair(h, l) =>
      HexIsAscii(h);
      HexIsAscii(l);
      AsciiSkip(l, u);
      AsciiSkip([BACKSLASH, LETTER_U], l + u);
      AsciiSkip(h, [BACKSLASH, LETTER_U] + (l + u));
      AsciiSkip([BACKSLASH, LETTER_U], h + ([BACKSLASH, LETTER_U] + (l + u)));
  }

  /** The value of a piece that is not a raw byte is one code point, well-formed unless it is unpaired. */
  lemma EscapeValue(p: Piece, u: bytes)
    requires PieceOk(p) && !p.Raw?
    ensures IsUtf8(PieceValue(p) + u) <==> !IsUnpaired(p) && IsUtf8(u)
  {
    match p
    case Short(e) => AsciiSkip([ShortEscape(e).value], u);
    case Hex(d) =>
      if IsUnpaired(p) {
        SurrogateIsMalformed(Hex4(d), u);
      } else {
        DecodesScalar(Hex4(d), u);
        Utf8Head(Utf8(Hex4(d)), u);
      }
    case Pair(h, l) =>
      var v := Combine(Hex4(h), Hex4(l));
      DecodesScalar(v, u);
      Utf8Head(Utf8(v), u);
  }

  lemma FirstIsRaw(ps: seq<Piece>)
    requires PiecesOk(ps) && PiecesThen(ps, []) != [] && PiecesThen(ps, [])[0] >= 0x80
    ensures ps != [] && ps[0].Raw? && PiecesThen(ps, []) == [ps[0].c] + PiecesThen(ps[1..], [])
    ensures PiecesOk(ps[1..]) && PiecesValue(ps) == [ps[0].c] + PiecesValue(ps[1..])
  {
  }

  lemma Peeled<T>(c: T, u: seq<T>, n: nat)
    requires 1 <= n <= |u| + 1
    ensures ([c] + u)[n..] == u[n - 1..] && ([c] + u)[..n] == [c] + u[..n - 1]
    ensures forall k :: 0 <= k < n - 1 ==> u[k] == ([c] + u)[k + 1]
  {
  }

  /** Non-ASCII bytes at the front of the text are raw pieces, copied to the value. */
  lemma {:induction false} RawRun(ps: seq<Piece>, n: nat)
    requires PiecesOk(ps) && n <= |PiecesThen(ps, [])|
    requires forall k :: 0 <= k < n ==> PiecesThen(ps, [])[k] >= 0x80
    ensures n <= |ps| && PiecesOk(ps[n..]) && forall k :: 0 <= k < n ==> ps[k].Raw?
    ensures PiecesThen(ps, [])[n..] == PiecesThen(ps[n..], [])
    ensures PiecesValue(ps) == PiecesThen(ps, [])[..n] + PiecesValue(ps[n..])
  {
    hide PiecesOk, PiecesValue, PiecesThen;
    if n == 0 {
      assert ps[0..] == ps;
    } else {
      FirstIsRaw(ps);
      var c, u := ps[0].c, PiecesThen(ps[1..], []);
      Peeled(c, u, n);
      RawRun(ps[1..], n - 1);
      Peeled(ps[0], ps[1..], n);
      assert [ps[0]] + ps[1..] == ps;
      Assoc([c], u[..n - 1], PiecesValue(ps[n..]));
    }
  }

  /** In a document that is UTF-8, a string is UTF-8 if and only if no surrogate escape in it is unpaired. */
  lemma {:induction false} StringIsUtf8(ps: seq<Piece>)
    requires PiecesOk(ps) && IsUtf8(PiecesThen(ps, []))
    ensures IsUtf8(PiecesValue(ps)) <==> AllPaired(ps)
    decreases |ps|
  {
    hide Decode, PieceThen, PieceValue, PieceOk, AllPaired;
    if ps == [] {
      AllPairedAfterRaw(ps, 0);
    } else {
      var t := PiecesThen(ps, []);
      AllPairedFirst(ps);
      if !ps[0].Raw? {
        EscapeSkip(ps[0], PiecesThen(ps[1..], []));
        EscapeValue(ps[0], PiecesValue(ps[1..]));
        StringIsUtf8(ps[1..]);
      } else {
        var n := Decode(t).value.1;
        DecodeBounds(t);
        DecodedRun(ps);
        assert IsUtf8(t[n..]) && t[n..] == PiecesThen(ps[n..], []);
        StringIsUtf8(ps[n..]);
        AllPairedAfterRaw(ps, n);
        DecodeLooksAt(t, PiecesValue(ps[n..]));
        Utf8Head(t[..n], PiecesValue(ps[n..]));
      }
    }
  }

  lemma AllPairedFirst(ps: seq<Piece>)
    requires ps != []
    ensures AllPaired(ps) <==> !IsUnpaired(ps[0]) && AllPaired(ps[1..])
  {
  }

  lemma AllPairedAfterRaw(ps: seq<Piece>, n: nat)
    requires n <= |ps| && forall k :: 0 <= k < n ==> ps[k].Raw?
    ensures AllPaired(ps) <==> AllPaired(ps[n..])
    ensures ps == [] ==> AllPaired(ps)
  {
  }

  /** The octets of the first code point are raw pieces. */
  lemma DecodedRun(ps: seq<Piece>)
    requires PiecesOk(ps) && ps != [] && ps[0].Raw? && Decode(PiecesThen(ps, [])).Some?
    ensures var t := PiecesThen(ps, []);
            var n := Decode(t).value.1;
            1 <= n <= |ps| && n <= |t| && PiecesOk(ps[n..]) && t[n..] == PiecesThen(ps[n..], [])
            && (forall k :: 0 <= k < n ==> ps[k].Raw?) && PiecesValue(ps) == t[..n] + PiecesValue(ps[n..])
  {
    var t := PiecesThen(ps, []);
    assert t == [ps[0].c] + PiecesThen(ps[1..], []);
    if t[0] < 0x80 {
      assert t[..1] == [ps[0].c];
    } else {
      RawRun(ps, Decode(t).value.1);
    }
  }
}
