/** Which texts are a value's, told from the octets alone, without the trees of `JsonSyntax`: RFC 8259, sections 2 to 7,
    with the code's extensions. A value comes out of the parser of json.hpp exactly for its texts. */
module JsonWritten {
  import opened Bytes
  import opened JsonSyntax
  import opened JsonReader
  import opened JsonUtf8
  import opened JsonDocUtf8

  // ---------------------------------------------------------------------------
  // Tokens
  // ---------------------------------------------------------------------------

  /** Space, tab, line feed, vertical tab, form feed, carriage return. */
  predicate Blank(w: bytes) {
    forall k :: 0 <= k < |w| ==> w[k] in [0x20, 0x09, 0x0A, 0x0B, 0x0C, 0x0D]
  }

  predicate SomeDigits(d: bytes) {
    d != [] && forall k :: 0 <= k < |d| ==> 0x30 <= d[k] <= 0x39
  }

  predicate IsFraction(f: bytes) {
    f == [] || (f[0] == 0x2E && SomeDigits(f[1..]))
  }

  predicate IsExponent(e: bytes) {
    e == []
    || (e[0] in [0x65, 0x45]
        && (SomeDigits(e[1..]) || (|e| > 1 && e[1] in [0x2B, 0x2D] && SomeDigits(e[2..]))))
  }

  predicate NumberParts(t: bytes, sign: bytes, whole: bytes, fraction: bytes, exponent: bytes) {
    t == sign + (whole + (fraction + exponent)) && (sign == [] || sign == [0x2D]) && SomeDigits(whole)
    && IsFraction(fraction) && IsExponent(exponent)
  }

  ghost predicate IsNumber(t: bytes) {
    exists sign, whole, fraction, exponent :: NumberParts(t, sign, whole, fraction, exponent)
  }

  predicate HasHex(c: byte, v: nat) {
    (0x30 <= c <= 0x39 && v == c - 0x30) || (0x41 <= c <= 0x46 && v == c - 0x37) || (0x61 <= c <= 0x66 && v == c - 0x57)
  }

  predicate HexParts(d: bytes, v: nat, a: nat, b: nat, c: nat, e: nat) {
    |d| == 4 && HasHex(d[0], a) && HasHex(d[1], b) && HasHex(d[2], c) && HasHex(d[3], e)
    && v == a * 0x1000 + b * 0x100 + c * 0x10 + e
  }

  /** A \u escape of the code unit. */
  ghost predicate IsUnit(t: bytes, v: nat) {
    |t| == 6 && t[0] == 0x5C && t[1] == 0x75 && exists a, b, c, e :: HexParts(t[2..], v, a, b, c, e)
  }

  ghost predicate LowUnitNext(t: bytes) {
    |t| >= 6 && exists v :: 0xDC00 <= v <= 0xDFFF && IsUnit(t[..6], v)
  }

  /** The octets are the UTF-8 of the scalar value. */
  predicate IsUtf8Of(u: bytes, v: nat) {
    Decode(u) == Some((v, |u|))
  }

  /** Any octet but the quote and the backslash stands for itself. */
  predicate Itself(t: bytes, u: bytes) {
    |t| == 1 && t[0] != 0x22 && t[0] != 0x5C && u == t
  }

  predicate TwoLetter(t: bytes, u: bytes) {
    |t| == 2 && t[0] == 0x5C && |u| == 1
    && ((t[1] == 0x22 && u[0] == 0x22) || (t[1] == 0x5C && u[0] == 0x5C) || (t[1] == 0x2F && u[0] == 0x2F)
        || (t[1] == 0x62 && u[0] == 0x08) || (t[1] == 0x66 && u[0] == 0x0C) || (t[1] == 0x6E && u[0] == 0x0A)
        || (t[1] == 0x72 && u[0] == 0x0D) || (t[1] == 0x74 && u[0] == 0x09))
  }

  ghost predicate OneUnit(t: bytes, u: bytes, v: nat) {
    IsUnit(t, v) && !(0xD800 <= v <= 0xDFFF) && IsUtf8Of(u, v)
  }

  ghost predicate TwoUnits(t: bytes, u: bytes, high: nat, low: nat) {
    |t| == 12 && IsUnit(t[..6], high) && 0xD800 <= high <= 0xDBFF && IsUnit(t[6..], low) && 0xDC00 <= low <= 0xDFFF
    && IsUtf8Of(u, 0x10000 + (high - 0xD800) * 0x400 + (low - 0xDC00))
  }

  /** A surrogate that is not half of a pair gets three octets, which are no UTF-8. */
  ghost predicate LoneSurrogate(t: bytes, u: bytes, v: nat, next: bytes) {
    IsUnit(t, v) && 0xD800 <= v <= 0xDFFF && (v <= 0xDBFF ==> !LowUnitNext(next))
    && u == [0xED, 0x80 + v / 0x40 % 0x40, 0x80 + v % 0x40]
  }

  /** The text of one character stands for these octets when `next` follows. */
  ghost predicate StandsFor(t: bytes, u: bytes, next: bytes) {
    || Itself(t, u)
    || TwoLetter(t, u)
    || (exists v :: OneUnit(t, u, v))
    || (exists high, low :: TwoUnits(t, u, high, low))
    || (exists v :: LoneSurrogate(t, u, v, next))
  }

  /** The text between the quotes of a string with these octets. */
  ghost predicate WritesChars(s: bytes, t: bytes)
    decreases |t|
  {
    (s == [] && t == [])
    || exists k, n :: 0 <= k <= |s| && 0 < n <= |t| && StandsFor(t[..n], s[..k], t[n..]) && WritesChars(s[k..], t[n..])
  }

  ghost predicate WritesString(s: bytes, t: bytes) {
    |t| >= 2 && t[0] == 0x22 && t[|t| - 1] == 0x22 && WritesChars(s, t[1..|t| - 1])
  }

  // ---------------------------------------------------------------------------
  // Values
  // ---------------------------------------------------------------------------

  ghost predicate Writes(v: Value, t: bytes)
    decreases v, 0
  {
    match v
    case Null => t == Ascii("null")
    case Bool(b) => t == if b then Ascii("true") else Ascii("false")
    case Number(token) => t == token && IsNumber(token)
    case Str(s) => WritesString(s, t)
    case Array(items) =>
      |t| >= 2 && t[0] == 0x5B && t[|t| - 1] == 0x5D
      && var inner := t[1..|t| - 1]; if items == [] then Blank(inner) else WritesItems(items, inner)
    case Object(fields) =>
      |t| >= 2 && t[0] == 0x7B && t[|t| - 1] == 0x7D
      && var inner := t[1..|t| - 1]; if fields == [] then Blank(inner) else WritesFields(fields, inner)
  }

  /** A value with white space around it; so is a whole document. */
  ghost predicate WritesPadded(v: Value, t: bytes)
    decreases v, 1
  {
    exists a, c :: 0 <= a <= c <= |t| && Blank(t[..a]) && Blank(t[c..]) && Writes(v, t[a..c])
  }

  /** The items in order, with commas between them. */
  ghost predicate WritesItems(items: seq<Value>, t: bytes)
    decreases items, 0
  {
    items != []
    && if |items| == 1 then WritesPadded(items[0], t)
       else
         exists d ::
           0 <= d < |t| && t[d] == 0x2C && WritesPadded(items[0], t[..d]) && WritesItems(items[1..], t[d + 1..])
  }

  ghost predicate WritesKey(s: bytes, t: bytes) {
    exists a, c :: 0 <= a <= c <= |t| && Blank(t[..a]) && Blank(t[c..]) && WritesString(s, t[a..c])
  }

  ghost predicate WritesField(f: Field, t: bytes)
    decreases f, 2
  {
    exists d :: 0 <= d < |t| && t[d] == 0x3A && WritesKey(f.key, t[..d]) && WritesPadded(f.value, t[d + 1..])
  }

  ghost predicate WritesFields(fields: seq<Field>, t: bytes)
    decreases fields, 0
  {
    fields != []
    && if |fields| == 1 then WritesField(fields[0], t)
       else
         exists d ::
           0 <= d < |t| && t[d] == 0x2C && WritesField(fields[0], t[..d]) && WritesFields(fields[1..], t[d + 1..])
  }

  // ---------------------------------------------------------------------------
  // Characters and pieces
  // ---------------------------------------------------------------------------

  lemma HexIs(c: byte, v: nat)
    ensures HasHex(c, v) <==> IsHex(c) && HexDigit(c) == v
  {
  }

  lemma UnitIs(t: bytes, v: nat)
    ensures IsUnit(t, v) <==> |t| == 6 && t[..2] == [BACKSLASH, LETTER_U] && IsHex4(t[2..]) && Hex4(t[2..]) == v
  {
    hide HexParts, IsHex4, Hex4;
    if |t| == 6 {
      HexPartsAre(t[2..], v);
    }
  }

  lemma HexPartsAre(d: bytes, v: nat)
    requires |d| == 4
    ensures (exists a, b, c, e :: HexParts(d, v, a, b, c, e)) <==> IsHex4(d) && Hex4(d) == v
  {
    hide IsHex, HexDigit, HasHex;
    if IsHex4(d) && Hex4(d) == v {
      HexIs(d[0], HexDigit(d[0]));
      HexIs(d[1], HexDigit(d[1]));
      HexIs(d[2], HexDigit(d[2]));
      HexIs(d[3], HexDigit(d[3]));
      assert HexParts(d, v, HexDigit(d[0]), HexDigit(d[1]), HexDigit(d[2]), HexDigit(d[3]));
    }
    if a, b, c, e :| HexParts(d, v, a, b, c, e) {
      HexIs(d[0], a);
      HexIs(d[1], b);
      HexIs(d[2], c);
      HexIs(d[3], e);
    }
  }

  lemma LowUnitNextIs(t: bytes)
    ensures LowUnitNext(t) <==> LowFollows(t)
  {
    hide IsUnit;
    if |t| >= 6 {
      var u := t[..6];
      assert u[2..] == t[2..6] && u[..2] == [t[0], t[1]];
      forall v
        ensures IsUnit(u, v) <==> u[..2] == [BACKSLASH, LETTER_U] && IsHex4(u[2..]) && Hex4(u[2..]) == v
      {
        UnitIs(u, v);
      }
      if LowFollows(t) {
        assert IsUnit(u, Hex4(u[2..]));
      }
    }
  }

  lemma Utf8OfIs(u: bytes, v: nat)
    ensures IsUtf8Of(u, v) <==> IsScalar(v) && u == Utf8(v)
  {
    if IsScalar(v) {
      DecodesScalar(v, []);
      assert Utf8(v) + [] == Utf8(v);
    }
    if IsUtf8Of(u, v) {
      DecodeBounds(u);
      DecodedOnce(u, v);
    }
  }

  lemma DecodedOnce(u: bytes, v: nat)
    requires Decode(u) == Some((v, |u|)) && IsScalar(v)
    ensures u == Utf8(v)
  {
    if u[0] < 0x80 {
      assert |u| == 1;
    } else if u[0] < 0xE0 {
      TwoAgain(u[0] - 0xC0, u[1] - 0x80);
    } else if u[0] < 0xF0 {
      ThreeOctets(u, v);
    } else {
      FourOctets(u, v);
    }
  }

  lemma ThreeOctets(u: bytes, v: nat)
    requires Decode(u) == Some((v, |u|)) && 0xE0 <= u[0] < 0xF0
    ensures u == Utf8(v)
  {
    ThreeAgain(u[0] - 0xE0, u[1] - 0x80, u[2] - 0x80);
    assert u == [u[0], u[1], u[2]];
  }

  lemma FourOctets(u: bytes, v: nat)
    requires Decode(u) == Some((v, |u|)) && u[0] >= 0xF0 && IsScalar(v)
    ensures u == Utf8(v)
  {
    FourAgain(u[0] - 0xF0, u[1] - 0x80, u[2] - 0x80, u[3] - 0x80);
    assert u == [u[0], u[1], u[2], u[3]];
  }

  lemma TwoAgain(a: nat, b: nat)
    requires b < 64
    ensures (a * 64 + b) / 64 == a && (a * 64 + b) % 64 == b
  {
  }

  lemma ThreeAgain(a: nat, b: nat, c: nat)
    requires b < 64 && c < 64
    ensures var v := a * 4096 + b * 64 + c; v / 4096 == a && v / 64 % 64 == b && v % 64 == c
  {
    TwoAgain(a * 64 + b, c);
    TwoAgain(a, b);
  }

  lemma FourAgain(a: nat, b: nat, c: nat, d: nat)
    requires b < 64 && c < 64 && d < 64
    ensures var v := a * 262144 + b * 4096 + c * 64 + d;
            v / 262144 == a && v / 4096 % 64 == b && v / 64 % 64 == c && v % 64 == d
  {
    ThreeAgain(a * 64 + b, c, d);
    TwoAgain(a, b);
  }

  lemma LoneOctets(v: nat)
    requires 0xD800 <= v <= 0xDFFF
    ensures Utf8(v) == [0xED, 0x80 + v / 0x40 % 0x40, 0x80 + v % 0x40]
  {
  }

  /** The text of a piece in front of `next` stands for the octets of the piece. */
  lemma PieceStands(p: Piece, next: bytes)
    requires PieceOk(p) && (p.Hex? && IsHighSurrogate(Hex4(p.digits)) ==> !LowFollows(next))
    ensures StandsFor(PieceThen(p, []), PieceValue(p), next)
  {
    hide IsUnit, LowFollows, LowUnitNext, IsUtf8Of, Utf8, Hex4;
    var t, u := PieceThen(p, []), PieceValue(p);
    match p
    case Raw(c) => assert Itself(t, u);
    case Short(e) => ShortStands(e);
    case Hex(d) =>
      var v := Hex4(d);
      assert t[2..] == d && t[..2] == [BACKSLASH, LETTER_U];
      UnitIs(t, v);
      if 0xD800 <= v <= 0xDFFF {
        LowUnitNextIs(next);
        LoneOctets(v);
        assert LoneSurrogate(t, u, v, next);
      } else {
        Utf8OfIs(u, v);
        assert OneUnit(t, u, v);
      }
    case Pair(h, l) =>
      assert t[..6][2..] == h && t[..6][..2] == [BACKSLASH, LETTER_U];
      assert t[6..][2..] == l && t[6..][..2] == [BACKSLASH, LETTER_U];
      UnitIs(t[..6], Hex4(h));
      UnitIs(t[6..], Hex4(l));
      Utf8OfIs(u, Combine(Hex4(h), Hex4(l)));
      assert TwoUnits(t, u, Hex4(h), Hex4(l));
  }

  lemma ShortStands(e: byte)
    requires ShortEscape(e).Some?
    ensures TwoLetter(PieceThen(Short(e), []), PieceValue(Short(e)))
  {
  }

  /** And every text of a character is a piece's. */
  lemma PieceFor(t: bytes, u: bytes, next: bytes) returns (p: Piece)
    requires StandsFor(t, u, next)
    ensures PieceOk(p) && PieceThen(p, []) == t && PieceValue(p) == u
    ensures p.Hex? && IsHighSurrogate(Hex4(p.digits)) ==> !LowFollows(next)
  {
    hide IsUnit, LowFollows, LowUnitNext, IsUtf8Of, Utf8, Hex4;
    if Itself(t, u) {
      p := Raw(t[0]);
    } else if TwoLetter(t, u) {
      p := Short(t[1]);
    } else if v :| OneUnit(t, u, v) {
      UnitIs(t, v);
      Utf8OfIs(u, v);
      p := Hex(t[2..]);
      assert t == t[..2] + t[2..];
    } else if high, low :| TwoUnits(t, u, high, low) {
      p := PairFor(t, u, high, low);
    } else {
      var v :| LoneSurrogate(t, u, v, next);
      UnitIs(t, v);
      LoneOctets(v);
      LowUnitNextIs(next);
      p := Hex(t[2..]);
      assert t == t[..2] + t[2..];
    }
  }

  lemma PairFor(t: bytes, u: bytes, high: nat, low: nat) returns (p: Piece)
    requires TwoUnits(t, u, high, low)
    ensures p.Pair? && PieceOk(p) && PieceThen(p, []) == t && PieceValue(p) == u
  {
    hide IsUnit, IsUtf8Of, Utf8, Hex4;
    UnitIs(t[..6], high);
    UnitIs(t[6..], low);
    Utf8OfIs(u, Combine(high, low));
    p := Pair(t[..6][2..], t[6..][2..]);
    assert t == t[..6][..2] + (t[..6][2..] + (t[6..][..2] + t[6..][2..]));
  }

  // ---------------------------------------------------------------------------
  // Strings and numbers
  // ---------------------------------------------------------------------------

  lemma PieceText(p: Piece, t: bytes)
    ensures PieceThen(p, t) == PieceThen(p, []) + t
  {
    PieceInFront(p, [], t);
    assert [] + t == t;
  }

  /** A lone high surrogate has no low one behind it. */
  lemma NotSplit(ps: seq<Piece>)
    requires PiecesOk(ps) && ps != []
    ensures ps[0].Hex? && IsHighSurrogate(Hex4(ps[0].digits)) ==> !LowFollows(PiecesThen(ps[1..], []))
  {
    if |ps| > 1 && LowFollows(PiecesThen(ps[1..], [])) {
      LowFollowsPiece(ps[1], PiecesThen(ps[1..][1..], []));
    }
  }

  lemma {:induction false} PiecesWritten(ps: seq<Piece>)
    requires PiecesOk(ps)
    ensures WritesChars(PiecesValue(ps), PiecesThen(ps, []))
  {
    hide StandsFor, PieceThen, PieceValue, PieceOk, LowFollows;
    if ps != [] {
      var p, rest := ps[0], PiecesThen(ps[1..], []);
      var s, t := PiecesValue(ps), PiecesThen(ps, []);
      var k, n := |PieceValue(p)|, |PieceThen(p, [])|;
      NotSplit(ps);
      PieceStands(p, rest);
      PieceText(p, rest);
      PiecesWritten(ps[1..]);
      assert t[..n] == PieceThen(p, []) && t[n..] == rest;
      assert s[..k] == PieceValue(p) && s[k..] == PiecesValue(ps[1..]);
    }
  }

  lemma LowIsNext(p: Piece, t: bytes)
    requires PieceOk(p) && p.Hex? && IsLowSurrogate(Hex4(p.digits))
    ensures LowFollows(PieceThen(p, t))
  {
    assert PieceThen(p, t)[2..6] == p.digits;
  }

  lemma {:induction false} PiecesFor(s: bytes, t: bytes) returns (ps: seq<Piece>)
    requires WritesChars(s, t)
    ensures PiecesOk(ps) && PiecesThen(ps, []) == t && PiecesValue(ps) == s
    decreases |t|
  {
    hide StandsFor, PieceThen, PieceValue, PieceOk, LowFollows;
    if s == [] && t == [] {
      ps := [];
    } else {
      var k, n :| 0 <= k <= |s| && 0 < n <= |t| && StandsFor(t[..n], s[..k], t[n..]) && WritesChars(s[k..], t[n..]);
      var p := PieceFor(t[..n], s[..k], t[n..]);
      var rest := PiecesFor(s[k..], t[n..]);
      if rest != [] && Splits(p, rest[0]) {
        LowIsNext(rest[0], PiecesThen(rest[1..], []));
      }
      ps := [p] + rest;
      assert ps[1..] == rest;
      PieceText(p, t[n..]);
      assert t == t[..n] + t[n..] && s == s[..k] + s[k..];
    }
  }

  lemma StringWritten(ps: seq<Piece>)
    requires PiecesOk(ps)
    ensures WritesString(PiecesValue(ps), StringThen(ps, []))
  {
    hide WritesChars, PiecesThen, PiecesValue;
    PiecesWritten(ps);
    PiecesInFront(ps, [QUOTE] + []);
    var t := StringThen(ps, []);
    assert t[1..|t| - 1] == PiecesThen(ps, []);
  }

  lemma StringFor(s: bytes, t: bytes) returns (ps: seq<Piece>)
    requires WritesString(s, t)
    ensures PiecesOk(ps) && StringThen(ps, []) == t && PiecesValue(ps) == s
  {
    hide WritesChars, PiecesThen, PiecesValue;
    ps := PiecesFor(s, t[1..|t| - 1]);
    PiecesInFront(ps, [QUOTE] + []);
    assert t == [QUOTE] + (t[1..|t| - 1] + [QUOTE]);
  }

  lemma DigitsAre(d: bytes)
    ensures SomeDigits(d) <==> IsDigits(d)
  {
  }

  lemma ExponentWritten(e: Option<Exponent>)
    requires e.Some? ==> ExponentOk(e.value)
    ensures IsExponent(ExponentThen(e, []))
  {
    if e.Some? {
      var t := ExponentThen(e, []);
      DigitsAre(e.value.digits);
      assert e.value.digits + [] == e.value.digits;
      if e.value.sign.Some? {
        assert t[2..] == e.value.digits;
      } else {
        assert t[1..] == e.value.digits;
      }
    }
  }

  lemma ExponentFor(t: bytes) returns (e: Option<Exponent>)
    requires IsExponent(t)
    ensures (e.Some? ==> ExponentOk(e.value)) && ExponentThen(e, []) == t
  {
    if t == [] {
      e := None;
    } else if SomeDigits(t[1..]) {
      e := Some(Exponent(t[0], None, t[1..]));
      assert t == [t[0]] + (t[1..] + []);
    } else {
      e := Some(Exponent(t[0], Some(t[1]), t[2..]));
      assert t == [t[0]] + ([t[1]] + (t[2..] + []));
    }
  }

  lemma NumWritten(n: Num)
    requires NumOk(n)
    ensures IsNumber(NumText(n))
  {
    hide IsExponent, ExponentThen;
    var exponent := ExponentThen(n.exponent, []);
    var fraction := if n.fraction.Some? then [DOT] + n.fraction.value else [];
    ExponentWritten(n.exponent);
    assert n.fraction.Some? ==> fraction[1..] == n.fraction.value;
    assert FractionThen(n.fraction, exponent) == fraction + exponent;
    var sign := if n.minus then [MINUS] else [];
    assert [] + (n.whole + (fraction + exponent)) == n.whole + (fraction + exponent);
    assert NumberParts(NumText(n), sign, n.whole, fraction, exponent);
  }

  lemma NumFor(t: bytes) returns (n: Num)
    requires IsNumber(t)
    ensures NumOk(n) && NumText(n) == t
  {
    hide IsExponent, ExponentThen;
    var sign, whole, fraction, exponent :| NumberParts(t, sign, whole, fraction, exponent);
    var e := ExponentFor(exponent);
    n := Num(sign != [], whole, if fraction == [] then None else Some(fraction[1..]), e);
    assert fraction != [] ==> fraction == [DOT] + fraction[1..];
    assert FractionThen(n.fraction, exponent) == fraction + exponent;
    assert sign == [] ==> sign + (whole + (fraction + exponent)) == whole + (fraction + exponent);
  }

  // ---------------------------------------------------------------------------
  // Trees
  // ---------------------------------------------------------------------------

  lemma GapIs(w: bytes)
    ensures Blank(w) <==> IsGap(w)
  {
    if IsGap(w) {
      assert forall k :: 0 <= k < |w| ==> IsSpace(w[k]);
    }
    if Blank(w) {
      forall k | 0 <= k < |w|
        ensures IsSpace(w[k])
      {
        assert w[k] in [0x20, 0x09, 0x0A, 0x0B, 0x0C, 0x0D];
      }
    }
  }

  lemma {:induction false} TreeInFront(tree: Tree, t: bytes)
    ensures TreeThen(tree, t) == TreeThen(tree, []) + t
    decreases tree, 0
  {
    hide NumThen, PiecesThen;
    match tree
    case TNull => Assoc(NULL_TEXT, [], t); assert [] + t == t;
    case TBool(b) => assert (if b then TRUE_TEXT else FALSE_TEXT) + [] == if b then TRUE_TEXT else FALSE_TEXT;
    case TNum(n) => NumInFront(n, t);
    case TStr(ps) => StringInFront(ps, t);
    case TEmptyArray(gap) => assert [LBRACKET] + (gap + ([RBRACKET] + t)) == [LBRACKET] + (gap + ([RBRACKET] + [])) + t;
    case TArray(es) =>
      ElemsInFront(es, [RBRACKET] + t);
      ElemsInFront(es, [RBRACKET] + []);
      Framed(LBRACKET, ElemsThen(es, []), RBRACKET, t);
    case TEmptyObject(gap) => assert [LBRACE] + (gap + ([RBRACE] + t)) == [LBRACE] + (gap + ([RBRACE] + [])) + t;
    case TObject(ms) =>
      MembersInFront(ms, [RBRACE] + t);
      MembersInFront(ms, [RBRACE] + []);
      Framed(LBRACE, MembersThen(ms, []), RBRACE, t);
  }

  lemma Framed(open: byte, inner: bytes, close: byte, t: bytes)
    ensures [open] + (inner + ([close] + t)) == [open] + (inner + ([close] + [])) + t
    ensures var u := [open] + (inner + ([close] + []));
            |u| >= 2 && u[0] == open && u[|u| - 1] == close && u[1..|u| - 1] == inner
  {
  }

  lemma StringInFront(ps: seq<Piece>, t: bytes)
    ensures StringThen(ps, t) == StringThen(ps, []) + t
  {
    hide PiecesThen;
    PiecesInFront(ps, [QUOTE] + t);
    PiecesInFront(ps, [QUOTE] + []);
    Framed(QUOTE, PiecesThen(ps, []), QUOTE, t);
  }

  lemma {:induction false} ElemInFront(e: Elem, t: bytes)
    ensures ElemThen(e, t) == ElemThen(e, []) + t
    ensures ElemThen(e, []) == e.before + (TreeThen(e.tree, []) + e.after)
    decreases e, 1
  {
    hide TreeThen;
    TreeInFront(e.tree, e.after + t);
    TreeInFront(e.tree, e.after + []);
    assert e.after + [] == e.after;
    Regroup(e.before, TreeThen(e.tree, []), e.after, t);
  }

  lemma Regroup(a: bytes, b: bytes, c: bytes, t: bytes)
    ensures a + (b + (c + t)) == (a + (b + c)) + t
  {
  }

  lemma {:induction false} ElemsInFront(es: Elems, t: bytes)
    ensures ElemsThen(es, t) == ElemsThen(es, []) + t
    decreases es, 2
  {
    hide ElemThen;
    if es.LastElem? {
      ElemInFront(es.e, t);
    } else {
      ElemsInFront(es.next, t);
      ElemInFront(es.e, [COMMA] + ElemsThen(es.next, t));
      ElemInFront(es.e, [COMMA] + ElemsThen(es.next, []));
      Regroup([], ElemThen(es.e, []) + [COMMA], ElemsThen(es.next, []), t);
      Separated(ElemThen(es.e, []), COMMA, ElemsThen(es.next, []), t);
    }
  }

  lemma Separated(a: bytes, c: byte, b: bytes, t: bytes)
    ensures a + ([c] + (b + t)) == (a + ([c] + b)) + t
    ensures var u := a + ([c] + b); |u| > |a| && u[..|a|] == a && u[|a|] == c && u[|a| + 1..] == b
  {
  }

  lemma {:induction false} MemberInFront(m: Member, t: bytes)
    ensures MemberThen(m, t) == MemberThen(m, []) + t
    ensures MemberThen(m, []) == KeyText(m) + ([COLON] + (m.afterColon + (TreeThen(m.tree, []) + m.after)))
    decreases m, 1
  {
    hide TreeThen, StringThen;
    TreeInFront(m.tree, m.after + t);
    TreeInFront(m.tree, m.after + []);
    assert m.after + [] == m.after;
    var v := m.afterColon + (TreeThen(m.tree, []) + m.after);
    Regroup(m.afterColon, TreeThen(m.tree, []), m.after, t);
    StringInFront(m.key, m.beforeColon + ([COLON] + (v + t)));
    StringInFront(m.key, m.beforeColon + ([COLON] + v));
    Regroup(m.before, StringThen(m.key, []), m.beforeColon, [COLON] + (v + t));
    Regroup(m.before, StringThen(m.key, []), m.beforeColon, [COLON] + v);
    Separated(KeyText(m), COLON, v, t);
  }

  function KeyText(m: Member): bytes {
    m.before + (StringThen(m.key, []) + m.beforeColon)
  }

  lemma {:induction false} MembersInFront(ms: Members, t: bytes)
    ensures MembersThen(ms, t) == MembersThen(ms, []) + t
    decreases ms, 2
  {
    hide MemberThen;
    if ms.LastMember? {
      MemberInFront(ms.m, t);
    } else {
      MembersInFront(ms.next, t);
      MemberInFront(ms.m, [COMMA] + MembersThen(ms.next, t));
      MemberInFront(ms.m, [COMMA] + MembersThen(ms.next, []));
      Separated(MemberThen(ms.m, []), COMMA, MembersThen(ms.next, []), t);
    }
  }

  lemma Middle(a: bytes, b: bytes, c: bytes)
    ensures var t := a + (b + c);
            |a| + |b| <= |t| && t[..|a|] == a && t[|a|..|a| + |b|] == b && t[|a| + |b|..] == c
  {
  }

  // ---------------------------------------------------------------------------
  // What is derived is written
  // ---------------------------------------------------------------------------

  lemma {:induction false} TreeWritten(tree: Tree)
    requires Ok(tree)
    ensures Writes(Denote(tree), TreeThen(tree, []))
    decreases tree, 0
  {
    hide NumThen, NumOk, NumText, IsNumber, PiecesOk, PiecesValue, StringThen, WritesString, IsGap, Blank, Writes,
      ElemsThen, MembersThen, DenoteElems, DenoteMembers, ElemsOk, MembersOk;
    match tree
    case TNull => LiteralsWritten();
    case TBool(b) => LiteralsWritten();
    case TNum(n) => NumberWritten(n);
    case TStr(ps) => TextWritten(ps);
    case TEmptyArray(gap) => BlankWritten(gap);
    case TArray(es) =>
      ElemsWritten(es);
      ElemsInFront(es, [RBRACKET] + []);
      ArrayWritten(DenoteElems(es), ElemsThen(es, []));
    case TEmptyObject(gap) => BlankWritten(gap);
    case TObject(ms) =>
      MembersWritten(ms);
      MembersInFront(ms, [RBRACE] + []);
      ObjectWritten(DenoteMembers(ms), MembersThen(ms, []));
  }

  lemma LiteralsWritten()
    ensures Writes(Null, NULL_TEXT + []) && Writes(Bool(true), TRUE_TEXT + []) && Writes(Bool(false), FALSE_TEXT + [])
  {
    LiteralTexts();
  }

  lemma NumberWritten(n: Num)
    requires NumOk(n)
    ensures Writes(Number(NumText(n)), NumThen(n, []))
  {
    hide NumText, NumOk, IsNumber, NumThen;
    NumWritten(n);
    NumTextIs(n);
  }

  lemma TextWritten(ps: seq<Piece>)
    requires PiecesOk(ps)
    ensures Writes(Str(PiecesValue(ps)), StringThen(ps, []))
  {
    hide PiecesOk, PiecesValue, StringThen, WritesString;
    StringWritten(ps);
  }

  lemma BlankWritten(gap: bytes)
    requires IsGap(gap)
    ensures Writes(Array([]), [LBRACKET] + (gap + ([RBRACKET] + [])))
    ensures Writes(Object([]), [LBRACE] + (gap + ([RBRACE] + [])))
  {
    hide Blank, IsGap;
    GapIs(gap);
    Framed(LBRACKET, gap, RBRACKET, []);
    Framed(LBRACE, gap, RBRACE, []);
  }

  lemma ArrayWritten(items: seq<Value>, inner: bytes)
    requires WritesItems(items, inner)
    ensures Writes(Array(items), [LBRACKET] + (inner + ([RBRACKET] + [])))
  {
    hide Blank, WritesItems, WritesFields;
    ItemsAreSome(items, inner);
    Framed(LBRACKET, inner, RBRACKET, []);
  }

  lemma ItemsAreSome(items: seq<Value>, inner: bytes)
    requires WritesItems(items, inner)
    ensures items != []
  {
  }

  lemma ObjectWritten(fields: seq<Field>, inner: bytes)
    requires WritesFields(fields, inner)
    ensures Writes(Object(fields), [LBRACE] + (inner + ([RBRACE] + [])))
  {
    hide Blank, WritesItems, WritesFields;
    FieldsAreSome(fields, inner);
    Framed(LBRACE, inner, RBRACE, []);
  }

  lemma FieldsAreSome(fields: seq<Field>, inner: bytes)
    requires WritesFields(fields, inner)
    ensures fields != []
  {
  }

  lemma NumTextIs(n: Num)
    ensures NumThen(n, []) == NumText(n)
  {
  }

  lemma LiteralTexts()
    ensures NULL_TEXT + [] == Ascii("null") && TRUE_TEXT + [] == Ascii("true") && FALSE_TEXT + [] == Ascii("false")
  {
  }

  lemma {:induction false} ElemWritten(e: Elem)
    requires ElemOk(e)
    ensures WritesPadded(DenoteElem(e), ElemThen(e, []))
    decreases e, 1
  {
    hide TreeThen, ElemThen, Ok, Denote, IsGap, Blank;
    TreeWritten(e.tree);
    ElemInFront(e, []);
    GapIs(e.before);
    GapIs(e.after);
    Middle(e.before, TreeThen(e.tree, []), e.after);
  }

  lemma {:induction false} ElemsWritten(es: Elems)
    requires ElemsOk(es)
    ensures WritesItems(DenoteElems(es), ElemsThen(es, []))
    decreases es, 2
  {
    hide ElemThen, ElemOk, DenoteElem, WritesPadded;
    ElemWritten(es.e);
    var items := DenoteElems(es);
    if es.MoreElems? {
      ElemsWritten(es.next);
      assert items[1..] == DenoteElems(es.next);
      ElemInFront(es.e, [COMMA] + ElemsThen(es.next, []));
      Separated(ElemThen(es.e, []), COMMA, ElemsThen(es.next, []), []);
      NotEmpty(es.next);
    }
  }

  lemma NotEmpty(es: Elems)
    requires ElemsOk(es)
    ensures DenoteElems(es) != []
  {
  }

  lemma {:induction false} MemberWritten(m: Member)
    requires MemberOk(m)
    ensures WritesField(DenoteMember(m), MemberThen(m, []))
    decreases m, 1
  {
    hide TreeThen, StringThen, MemberThen, Ok, Denote, PiecesOk, PiecesValue, IsGap, Blank, WritesString, Writes;
    var v := m.afterColon + (TreeThen(m.tree, []) + m.after);
    MemberInFront(m, []);
    Separated(KeyText(m), COLON, v, []);
    StringWritten(m.key);
    TreeWritten(m.tree);
    GapIs(m.before);
    GapIs(m.beforeColon);
    GapIs(m.afterColon);
    GapIs(m.after);
    Middle(m.before, StringThen(m.key, []), m.beforeColon);
    Middle(m.afterColon, TreeThen(m.tree, []), m.after);
    assert WritesKey(PiecesValue(m.key), KeyText(m));
    assert WritesPadded(Denote(m.tree), v);
  }

  lemma {:induction false} MembersWritten(ms: Members)
    requires MembersOk(ms)
    ensures WritesFields(DenoteMembers(ms), MembersThen(ms, []))
    decreases ms, 2
  {
    hide MemberThen, MemberOk, DenoteMember, WritesField;
    MemberWritten(ms.m);
    var fields := DenoteMembers(ms);
    if ms.MoreMembers? {
      MembersWritten(ms.next);
      assert fields[1..] == DenoteMembers(ms.next);
      MemberInFront(ms.m, [COMMA] + MembersThen(ms.next, []));
      Separated(MemberThen(ms.m, []), COMMA, MembersThen(ms.next, []), []);
      NoneEmpty(ms.next);
    }
  }

  lemma NoneEmpty(ms: Members)
    requires MembersOk(ms)
    ensures DenoteMembers(ms) != []
  {
  }

  // ---------------------------------------------------------------------------
  // What is written is derived
  // ---------------------------------------------------------------------------

  lemma {:induction false} TreeFor(v: Value, t: bytes) returns (tree: Tree)
    requires Writes(v, t)
    ensures Ok(tree) && TreeThen(tree, []) == t && Denote(tree) == v
    decreases v, 0
  {
    hide NumThen, NumOk, NumText, IsNumber, PiecesOk, PiecesValue, StringThen, WritesString, IsGap, Blank, WritesItems,
      WritesFields;
    match v
    case Null => tree := TNull; LiteralTexts();
    case Bool(b) => tree := TBool(b); LiteralTexts();
    case Number(token) =>
      var n := NumFor(token);
      NumTextIs(n);
      tree := TNum(n);
    case Str(s) =>
      var ps := StringFor(s, t);
      tree := TStr(ps);
    case Array(items) =>
      var inner := t[1..|t| - 1];
      assert t == [LBRACKET] + (inner + ([RBRACKET] + []));
      if items == [] {
        GapIs(inner);
        tree := TEmptyArray(inner);
      } else {
        var es := ElemsFor(items, inner);
        ElemsInFront(es, [RBRACKET] + []);
        tree := TArray(es);
      }
    case Object(fields) =>
      var inner := t[1..|t| - 1];
      assert t == [LBRACE] + (inner + ([RBRACE] + []));
      if fields == [] {
        GapIs(inner);
        tree := TEmptyObject(inner);
      } else {
        var ms := MembersFor(fields, inner);
        MembersInFront(ms, [RBRACE] + []);
        tree := TObject(ms);
      }
  }

  lemma {:induction false} ElemFor(v: Value, t: bytes) returns (e: Elem)
    requires WritesPadded(v, t)
    ensures ElemOk(e) && ElemThen(e, []) == t && DenoteElem(e) == v
    decreases v, 1
  {
    hide TreeThen, ElemThen, Ok, Denote, IsGap, Blank, Writes;
    var a, c :| 0 <= a <= c <= |t| && Blank(t[..a]) && Blank(t[c..]) && Writes(v, t[a..c]);
    var tree := TreeFor(v, t[a..c]);
    GapIs(t[..a]);
    GapIs(t[c..]);
    e := Elem(t[..a], tree, t[c..]);
    ElemInFront(e, []);
    assert t == t[..a] + (t[a..c] + t[c..]);
  }

  lemma OnlyItem(items: seq<Value>, t: bytes)
    requires WritesItems(items, t) && |items| == 1
    ensures WritesPadded(items[0], t)
  {
    hide WritesPadded;
  }

  lemma ItemsSplit(items: seq<Value>, t: bytes) returns (d: nat)
    requires WritesItems(items, t) && |items| > 1
    ensures d < |t| && t[d] == 0x2C && WritesPadded(items[0], t[..d]) && WritesItems(items[1..], t[d + 1..])
  {
    hide WritesPadded;
    d :| 0 <= d < |t| && t[d] == 0x2C && WritesPadded(items[0], t[..d]) && WritesItems(items[1..], t[d + 1..]);
  }

  lemma {:induction false} ElemsFor(items: seq<Value>, t: bytes) returns (es: Elems)
    requires WritesItems(items, t)
    ensures ElemsOk(es) && ElemsThen(es, []) == t && DenoteElems(es) == items
    decreases items, 0
  {
    hide ElemThen, ElemsThen, ElemOk, ElemsOk, DenoteElem, DenoteElems, WritesPadded, WritesItems;
    ItemsAreSome(items, t);
    if |items| == 1 {
      OnlyItem(items, t);
      var e := ElemFor(items[0], t);
      es := LastElem(e);
      OneElem(e);
      assert items == [items[0]];
    } else {
      var d := ItemsSplit(items, t);
      var e := ElemFor(items[0], t[..d]);
      var next := ElemsFor(items[1..], t[d + 1..]);
      es := MoreElems(e, next);
      OneMoreElem(e, next);
      Comma(t, d);
      assert items == [items[0]] + items[1..];
    }
  }

  lemma OneElem(e: Elem)
    requires ElemOk(e)
    ensures ElemsOk(LastElem(e)) && DenoteElems(LastElem(e)) == [DenoteElem(e)]
    ensures ElemsThen(LastElem(e), []) == ElemThen(e, [])
  {
  }

  lemma OneMember(m: Member)
    requires MemberOk(m)
    ensures MembersOk(LastMember(m)) && DenoteMembers(LastMember(m)) == [DenoteMember(m)]
    ensures MembersThen(LastMember(m), []) == MemberThen(m, [])
  {
  }

  lemma OneMoreElem(e: Elem, next: Elems)
    requires ElemOk(e) && ElemsOk(next)
    ensures ElemsOk(MoreElems(e, next)) && DenoteElems(MoreElems(e, next)) == [DenoteElem(e)] + DenoteElems(next)
    ensures ElemsThen(MoreElems(e, next), []) == ElemThen(e, []) + ([COMMA] + ElemsThen(next, []))
  {
    hide ElemThen, ElemOk, DenoteElem;
    ElemInFront(e, [COMMA] + ElemsThen(next, []));
  }

  lemma Comma(t: bytes, d: nat)
    requires d < |t|
    ensures t == t[..d] + ([t[d]] + t[d + 1..])
  {
  }

  lemma KeyFor(s: bytes, t: bytes) returns (before: bytes, ps: seq<Piece>, after: bytes)
    requires WritesKey(s, t)
    ensures IsGap(before) && IsGap(after) && PiecesOk(ps) && PiecesValue(ps) == s
    ensures t == before + (StringThen(ps, []) + after)
  {
    hide StringThen, PiecesOk, PiecesValue, IsGap, Blank, WritesString;
    var a, c :| 0 <= a <= c <= |t| && Blank(t[..a]) && Blank(t[c..]) && WritesString(s, t[a..c]);
    GapIs(t[..a]);
    GapIs(t[c..]);
    ps := StringFor(s, t[a..c]);
    before, after := t[..a], t[c..];
    assert t == t[..a] + (t[a..c] + t[c..]);
  }

  lemma {:induction false} MemberFor(f: Field, t: bytes) returns (m: Member)
    requires WritesField(f, t)
    ensures MemberOk(m) && MemberThen(m, []) == t && DenoteMember(m) == f
    decreases f, 2
  {
    hide TreeThen, StringThen, MemberThen, ElemThen, Ok, Denote, PiecesOk, PiecesValue, IsGap, WritesKey, WritesPadded;
    var d :| 0 <= d < |t| && t[d] == 0x3A && WritesKey(f.key, t[..d]) && WritesPadded(f.value, t[d + 1..]);
    var before, ps, after := KeyFor(f.key, t[..d]);
    var e := ElemFor(f.value, t[d + 1..]);
    m := Member(before, ps, after, e.before, e.tree, e.after);
    MemberInFront(m, []);
    ElemInFront(e, []);
    Comma(t, d);
  }

  lemma OnlyField(fields: seq<Field>, t: bytes)
    requires WritesFields(fields, t) && |fields| == 1
    ensures WritesField(fields[0], t)
  {
    hide WritesField;
  }

  lemma FieldsSplit(fields: seq<Field>, t: bytes) returns (d: nat)
    requires WritesFields(fields, t) && |fields| > 1
    ensures d < |t| && t[d] == 0x2C && WritesField(fields[0], t[..d]) && WritesFields(fields[1..], t[d + 1..])
  {
    hide WritesField;
    d :| 0 <= d < |t| && t[d] == 0x2C && WritesField(fields[0], t[..d]) && WritesFields(fields[1..], t[d + 1..]);
  }

  lemma {:induction false} MembersFor(fields: seq<Field>, t: bytes) returns (ms: Members)
    requires WritesFields(fields, t)
    ensures MembersOk(ms) && MembersThen(ms, []) == t && DenoteMembers(ms) == fields
    decreases fields, 0
  {
    hide MemberThen, MembersThen, MemberOk, MembersOk, DenoteMember, DenoteMembers, WritesField, WritesFields;
    FieldsAreSome(fields, t);
    if |fields| == 1 {
      OnlyField(fields, t);
      var m := MemberFor(fields[0], t);
      ms := LastMember(m);
      OneMember(m);
      assert fields == [fields[0]];
    } else {
      var d := FieldsSplit(fields, t);
      var m := MemberFor(fields[0], t[..d]);
      var next := MembersFor(fields[1..], t[d + 1..]);
      ms := MoreMembers(m, next);
      OneMoreMember(m, next);
      Comma(t, d);
      assert fields == [fields[0]] + fields[1..];
    }
  }

  lemma OneMoreMember(m: Member, next: Members)
    requires MemberOk(m) && MembersOk(next)
    ensures MembersOk(MoreMembers(m, next))
    ensures DenoteMembers(MoreMembers(m, next)) == [DenoteMember(m)] + DenoteMembers(next)
    ensures MembersThen(MoreMembers(m, next), []) == MemberThen(m, []) + ([COMMA] + MembersThen(next, []))
  {
    hide MemberThen, MemberOk, DenoteMember;
    MemberInFront(m, [COMMA] + MembersThen(next, []));
  }

  /** Parsing is the inverse of writing: a value comes out exactly for the texts that are the value's, with white space
      around it. So whatever spacing and escapes a printer chooses, the value it prints comes back. */
  lemma ParsesExactlyWhatIsWritten(t: bytes, v: Value)
    ensures ParsedValue(t) == Some(v) <==> WritesPadded(v, t)
  {
    hide ParsedValue, TreeThen, Ok, Denote, IsGap, WritesPadded;
    if ParsedValue(t) == Some(v) {
      ParsesExactlyTheDenotation(t, v);
      var d: Doc :| DocOk(d) && DocText(d) == t && Denote(d.tree) == v;
      ElemIsDoc(Elem(d.before, d.tree, d.after));
      ElemWritten(Elem(d.before, d.tree, d.after));
    }
    if WritesPadded(v, t) {
      var e := ElemFor(v, t);
      ElemIsDoc(e);
      ParsesExactlyTheDenotation(t, v);
      assert DocOk(Doc(e.before, e.tree, e.after)) && DocText(Doc(e.before, e.tree, e.after)) == t;
    }
  }

  lemma ElemIsDoc(e: Elem)
    ensures ElemThen(e, []) == DocText(Doc(e.before, e.tree, e.after))
  {
    hide TreeThen;
    assert e.after + [] == e.after;
  }
}
