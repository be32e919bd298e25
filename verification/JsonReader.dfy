/** The reading function of json.hpp on the remaining input, and the proof that it inverts printing:
    it returns a document exactly for the texts of documents that are `DocOk`, and then the one printed.
  */
module JsonReader {
  import opened Bytes
  import opened JsonSyntax

  datatype Parsed<+T> = Failed | Parsed(value: T, rest: bytes)

  // ---------------------------------------------------------------------------
  // Tokens
  // ---------------------------------------------------------------------------

  /** The longest run of white space at the front of `t`. */
  function Gap(t: bytes): (w: bytes)
    ensures |w| <= |t| && w == t[..|w|] && IsGap(w)
    ensures |w| < |t| ==> !IsSpace(t[|w|])
  {
    if t != [] && IsSpace(t[0]) then [t[0]] + Gap(t[1..]) else []
  }

  function SkipGap(t: bytes): bytes {
    t[|Gap(t)|..]
  }

  function Digits(t: bytes): (d: bytes)
    ensures |d| <= |t| && d == t[..|d|]
    ensures d != [] ==> IsDigits(d)
    ensures |d| < |t| ==> !IsDigit(t[|d|])
  {
    if t != [] && IsDigit(t[0]) then [t[0]] + Digits(t[1..]) else []
  }

  function ReadFraction(t: bytes): Parsed<Option<bytes>> {
    if t == [] || t[0] != DOT then Parsed(None, t)
    else
      var d := Digits(t[1..]);
      if d == [] then Failed else Parsed(Some(d), t[1 + |d|..])
  }

  function ReadSign(t: bytes): (r: (Option<byte>, bytes))
    ensures t == SignThen(r.0, r.1)
    ensures r.0.Some? ==> r.0.value == PLUS || r.0.value == MINUS
  {
    if t != [] && (t[0] == PLUS || t[0] == MINUS) then (Some(t[0]), t[1..]) else (None, t)
  }

  function ReadExponent(t: bytes): Parsed<Option<Exponent>> {
    if t == [] || (t[0] != 0x65 && t[0] != 0x45) then Parsed(None, t)
    else
      var (sign, v) := ReadSign(t[1..]);
      var d := Digits(v);
      if d == [] then Failed else Parsed(Some(Exponent(t[0], sign, d)), v[|d|..])
  }

  function ReadNum(t: bytes): Parsed<Num> {
    var minus := t != [] && t[0] == MINUS;
    var u := if minus then t[1..] else t;
    var d := Digits(u);
    if d == [] then Failed
    else
      match ReadFraction(u[|d|..])
      case Failed => Failed
      case Parsed(f, v) =>
        match ReadExponent(v)
        case Failed => Failed
        case Parsed(e, w) => Parsed(Num(minus, d, f, e), w)
  }

  /** One piece of a string; `t` does not start with the closing quote. */
  function ReadPiece(t: bytes): (r: Parsed<Piece>)
    requires t != [] && t[0] != QUOTE
    ensures r.Parsed? ==> PieceOk(r.value) && |r.rest| < |t|
  {
    if t[0] != BACKSLASH then Parsed(Raw(t[0]), t[1..])
    else if |t| == 1 then Failed
    else if t[1] != LETTER_U then
      if ShortEscape(t[1]).Some? then Parsed(Short(t[1]), t[2..]) else Failed
    else if |t| < 6 || !IsHex4(t[2..6]) then Failed
    else if IsHighSurrogate(Hex4(t[2..6])) && LowFollows(t[6..]) then Parsed(Pair(t[2..6], t[6..][2..6]), t[6..][6..])
    else Parsed(Hex(t[2..6]), t[6..])
  }

  /** A \u escape of a low surrogate stands at the front of `t`. */
  predicate LowFollows(t: bytes) {
    |t| >= 6 && t[0] == BACKSLASH && t[1] == LETTER_U && IsHex4(t[2..6]) && IsLowSurrogate(Hex4(t[2..6]))
  }

  /** The rest of a string after its opening quote. */
  function ReadPieces(t: bytes): (r: Parsed<seq<Piece>>)
    ensures r.Parsed? ==> |r.rest| < |t|
    decreases |t|
  {
    if t == [] then Failed
    else if t[0] == QUOTE then Parsed([], t[1..])
    else
      match ReadPiece(t)
      case Failed => Failed
      case Parsed(p, u) =>
        match ReadPieces(u)
        case Failed => Failed
        case Parsed(ps, v) => Parsed([p] + ps, v)
  }

  function ReadString(t: bytes): (r: Parsed<seq<Piece>>)
    ensures r.Parsed? ==> |r.rest| < |t|
  {
    if t == [] || t[0] != QUOTE then Failed else ReadPieces(t[1..])
  }

  function ReadLiteral(t: bytes, literal: bytes, tree: Tree): Parsed<Tree> {
    if literal <= t then Parsed(tree, t[|literal|..]) else Failed
  }

  // ---------------------------------------------------------------------------
  // Values and documents
  // ---------------------------------------------------------------------------

  /** The value at the front of `t`, which starts after the white space. */
  function ReadTree(t: bytes): (r: Parsed<Tree>)
    ensures r.Parsed? ==> |r.rest| < |t|
    decreases |t|, 0
  {
    if t == [] then Failed
    else if t[0] == LBRACE then ReadObject(t[1..])
    else if t[0] == LBRACKET then ReadArray(t[1..])
    else if t[0] == QUOTE then
      match ReadPieces(t[1..])
      case Failed => Failed
      case Parsed(ps, rest) => Parsed(TStr(ps), rest)
    else if t[0] == 0x74 then ReadLiteral(t, TRUE_TEXT, TBool(true))
    else if t[0] == 0x66 then ReadLiteral(t, FALSE_TEXT, TBool(false))
    else if t[0] == 0x6E then ReadLiteral(t, NULL_TEXT, TNull)
    else if t[0] == MINUS || IsDigit(t[0]) then
      match ReadNum(t)
      case Failed => Failed
      case Parsed(n, rest) => Parsed(TNum(n), rest)
    else Failed
  }

  /** An array after its opening bracket. */
  function ReadArray(t: bytes): (r: Parsed<Tree>)
    ensures r.Parsed? ==> |r.rest| < |t|
    decreases |t|, 3
  {
    var u := SkipGap(t);
    if u != [] && u[0] == RBRACKET then Parsed(TEmptyArray(Gap(t)), u[1..])
    else
      match ReadElems(t)
      case Failed => Failed
      case Parsed(es, rest) => Parsed(TArray(es), rest)
  }

  /** An object after its opening brace. */
  function ReadObject(t: bytes): (r: Parsed<Tree>)
    ensures r.Parsed? ==> |r.rest| < |t|
    decreases |t|, 3
  {
    var u := SkipGap(t);
    if u != [] && u[0] == RBRACE then Parsed(TEmptyObject(Gap(t)), u[1..])
    else
      match ReadMembers(t)
      case Failed => Failed
      case Parsed(ms, rest) => Parsed(TObject(ms), rest)
  }

  /** Elements up to and including the closing bracket. */
  function ReadElems(t: bytes): (r: Parsed<Elems>)
    ensures r.Parsed? ==> |r.rest| < |t|
    decreases |t|, 2
  {
    match ReadElem(t)
    case Failed => Failed
    case Parsed(e, u) =>
      if u == [] then Failed
      else if u[0] == RBRACKET then Parsed(LastElem(e), u[1..])
      else if u[0] != COMMA then Failed
      else
        match ReadElems(u[1..])
        case Failed => Failed
        case Parsed(es, rest) => Parsed(MoreElems(e, es), rest)
  }

  /** One element with the white space around it. */
  function ReadElem(t: bytes): (r: Parsed<Elem>)
    ensures r.Parsed? ==> |r.rest| < |t|
    decreases |t|, 1
  {
    match ReadTree(SkipGap(t))
    case Failed => Failed
    case Parsed(tree, u) => Parsed(Elem(Gap(t), tree, Gap(u)), SkipGap(u))
  }

  /** Members up to and including the closing brace. */
  function ReadMembers(t: bytes): (r: Parsed<Members>)
    ensures r.Parsed? ==> |r.rest| < |t|
    decreases |t|, 2
  {
    match ReadMember(t)
    case Failed => Failed
    case Parsed(m, u) =>
      if u == [] then Failed
      else if u[0] == RBRACE then Parsed(LastMember(m), u[1..])
      else if u[0] != COMMA then Failed
      else
        match ReadMembers(u[1..])
        case Failed => Failed
        case Parsed(ms, rest) => Parsed(MoreMembers(m, ms), rest)
  }

  /** One member with the white space around it. */
  function ReadMember(t: bytes): (r: Parsed<Member>)
    ensures r.Parsed? ==> |r.rest| < |t|
    decreases |t|, 1
  {
    match ReadString(SkipGap(t))
    case Failed => Failed
    case Parsed(key, u) =>
      var v := SkipGap(u);
      if v == [] || v[0] != COLON then Failed
      else
        match ReadTree(SkipGap(v[1..]))
        case Failed => Failed
        case Parsed(tree, w) => Parsed(Member(Gap(t), key, Gap(u), Gap(v[1..]), tree, Gap(w)), SkipGap(w))
  }

  function ReadDoc(t: bytes): Option<Doc> {
    match ReadTree(SkipGap(t))
    case Failed => None
    case Parsed(tree, rest) =>
      if SkipGap(rest) == [] then Some(Doc(Gap(t), tree, rest)) else None
  }

  // ---------------------------------------------------------------------------
  // Soundness: what is read is the text of the tree returned
  // ---------------------------------------------------------------------------

  lemma HeadTail(t: bytes)
    requires t != []
    ensures t == [t[0]] + t[1..]
  {
  }

  lemma NumSound(t: bytes)
    requires ReadNum(t).Parsed?
    ensures NumOk(ReadNum(t).value) && t == NumThen(ReadNum(t).value, ReadNum(t).rest)
  {
    var n, rest := ReadNum(t).value, ReadNum(t).rest;
    var u := if n.minus then t[1..] else t;
    var v := u[|n.whole|..];
    FractionSound(v);
    ExponentSound(ReadFraction(v).rest);
    assert u == n.whole + v;
  }

  lemma FractionSound(t: bytes)
    requires ReadFraction(t).Parsed?
    ensures ReadFraction(t).value.Some? ==> IsDigits(ReadFraction(t).value.value)
    ensures t == FractionThen(ReadFraction(t).value, ReadFraction(t).rest)
  {
  }

  lemma ExponentSound(t: bytes)
    requires ReadExponent(t).Parsed?
    ensures ReadExponent(t).value.Some? ==> ExponentOk(ReadExponent(t).value.value)
    ensures t == ExponentThen(ReadExponent(t).value, ReadExponent(t).rest)
  {
  }

  lemma PieceSound(t: bytes)
    requires t != [] && t[0] != QUOTE && ReadPiece(t).Parsed?
    ensures t == PieceThen(ReadPiece(t).value, ReadPiece(t).rest)
    ensures ReadPiece(t).value.Hex? && IsHighSurrogate(Hex4(ReadPiece(t).value.digits)) ==>
              !LowFollows(ReadPiece(t).rest)
  {
  }

  lemma {:induction false} PiecesSound(t: bytes)
    requires ReadPieces(t).Parsed?
    ensures PiecesOk(ReadPieces(t).value)
    ensures t == PiecesThen(ReadPieces(t).value, [QUOTE] + ReadPieces(t).rest)
    decreases |t|
  {
    if t[0] != QUOTE {
      var u := ReadPiece(t).rest;
      PieceSound(t);
      PiecesSound(u);
      assert ReadPieces(t).value[1..] == ReadPieces(u).value;
    }
  }

  lemma GapSplits(t: bytes)
    ensures t == Gap(t) + SkipGap(t)
  {
  }

  lemma {:induction false} TreeSound(t: bytes)
    requires ReadTree(t).Parsed?
    ensures Ok(ReadTree(t).value) && t == TreeThen(ReadTree(t).value, ReadTree(t).rest)
    decreases |t|, 0
  {
    HeadTail(t);
    if t[0] == LBRACE {
      ObjectSound(t[1..]);
    } else if t[0] == LBRACKET {
      ArraySound(t[1..]);
    } else if t[0] == QUOTE {
      StringSound(t);
    } else if t[0] == MINUS || IsDigit(t[0]) {
      NumSound(t);
    } else {
      LiteralSound(t);
    }
  }

  lemma LiteralSound(t: bytes)
    requires ReadTree(t).Parsed? && t[0] in {0x74, 0x66, 0x6E}
    ensures Ok(ReadTree(t).value) && t == TreeThen(ReadTree(t).value, ReadTree(t).rest)
  {
  }

  lemma {:induction false} ArraySound(t: bytes)
    requires ReadArray(t).Parsed?
    ensures Ok(ReadArray(t).value) && [LBRACKET] + t == TreeThen(ReadArray(t).value, ReadArray(t).rest)
    decreases |t|, 3
  {
    var u := SkipGap(t);
    if u != [] && u[0] == RBRACKET {
      GapSplits(t);
      HeadTail(u);
    } else {
      ElemsSound(t);
    }
  }

  lemma {:induction false} ObjectSound(t: bytes)
    requires ReadObject(t).Parsed?
    ensures Ok(ReadObject(t).value) && [LBRACE] + t == TreeThen(ReadObject(t).value, ReadObject(t).rest)
    decreases |t|, 3
  {
    var u := SkipGap(t);
    if u != [] && u[0] == RBRACE {
      GapSplits(t);
      HeadTail(u);
    } else {
      MembersSound(t);
    }
  }

  lemma {:induction false} ElemsSound(t: bytes)
    requires ReadElems(t).Parsed?
    ensures ElemsOk(ReadElems(t).value)
    ensures t == ElemsThen(ReadElems(t).value, [RBRACKET] + ReadElems(t).rest)
    decreases |t|, 2
  {
    var u := ReadElem(t).rest;
    ElemSound(t);
    HeadTail(u);
    if u[0] == COMMA {
      ElemsSound(u[1..]);
    }
  }

  lemma {:induction false} ElemSound(t: bytes)
    requires ReadElem(t).Parsed?
    ensures ElemOk(ReadElem(t).value) && t == ElemThen(ReadElem(t).value, ReadElem(t).rest)
    decreases |t|, 1
  {
    TreeSound(SkipGap(t));
    GapSplits(t);
    GapSplits(ReadTree(SkipGap(t)).rest);
  }

  lemma {:induction false} MembersSound(t: bytes)
    requires ReadMembers(t).Parsed?
    ensures MembersOk(ReadMembers(t).value)
    ensures t == MembersThen(ReadMembers(t).value, [RBRACE] + ReadMembers(t).rest)
    decreases |t|, 2
  {
    var u := ReadMember(t).rest;
    MemberSound(t);
    HeadTail(u);
    if u[0] == COMMA {
      MembersSound(u[1..]);
    }
  }

  lemma {:induction false} MemberSound(t: bytes)
    requires ReadMember(t).Parsed?
    ensures MemberOk(ReadMember(t).value) && t == MemberThen(ReadMember(t).value, ReadMember(t).rest)
    decreases |t|, 1
  {
    var u := ReadString(SkipGap(t)).rest;
    var v := SkipGap(u);
    var w := ReadTree(SkipGap(v[1..])).rest;
    GapSplits(t);
    StringSound(SkipGap(t));
    GapSplits(u);
    ColonSplits(v);
    TreeSound(SkipGap(v[1..]));
    GapSplits(w);
  }

  lemma ColonSplits(v: bytes)
    requires v != [] && v[0] == COLON
    ensures v == [COLON] + (Gap(v[1..]) + SkipGap(v[1..]))
  {
  }

  lemma StringSound(t: bytes)
    requires ReadString(t).Parsed?
    ensures PiecesOk(ReadString(t).value) && t == StringThen(ReadString(t).value, ReadString(t).rest)
  {
    PiecesSound(t[1..]);
    HeadTail(t);
  }

  // ---------------------------------------------------------------------------
  // Completeness: the text of a tree is read back as that tree
  // ---------------------------------------------------------------------------

  lemma {:induction false} GapReads(w: bytes, t: bytes)
    requires IsGap(w) && (t == [] || !IsSpace(t[0]))
    ensures Gap(w + t) == w && SkipGap(w + t) == t
  {
    if w != [] {
      GapReads(w[1..], t);
      assert (w + t)[1..] == w[1..] + t;
    } else {
      assert w + t == t;
    }
  }

  lemma {:induction false} DigitsReads(d: bytes, t: bytes)
    requires (forall k :: 0 <= k < |d| ==> IsDigit(d[k])) && (t == [] || !IsDigit(t[0]))
    ensures Digits(d + t) == d && (d + t)[|d|..] == t
  {
    if d == [] {
      assert d + t == t;
    } else {
      assert (d + t)[1..] == d[1..] + t;
      DigitsReads(d[1..], t);
    }
  }

  /** The bytes a number token would swallow if they stood right after it. */
  predicate ExtendsNumber(c: byte) {
    IsDigit(c) || c == DOT || c == 0x65 || c == 0x45
  }

  lemma SignReads(sign: Option<byte>, d: bytes)
    requires sign.Some? ==> sign.value == PLUS || sign.value == MINUS
    requires d != [] && IsDigit(d[0])
    ensures ReadSign(SignThen(sign, d)) == (sign, d)
  {
    if sign.Some? {
      assert ([sign.value] + d)[1..] == d;
    }
  }

  lemma ExponentReads(e: Option<Exponent>, t: bytes)
    requires e.Some? ==> ExponentOk(e.value)
    requires t == [] || !ExtendsNumber(t[0])
    ensures ReadExponent(ExponentThen(e, t)) == Parsed(e, t)
  {
    hide SignThen, ReadSign, Digits;
    if e.Some? {
      var body := SignThen(e.value.sign, e.value.digits + t);
      assert ([e.value.mark] + body)[1..] == body;
      SignReads(e.value.sign, e.value.digits + t);
      DigitsReads(e.value.digits, t);
    }
  }

  lemma FractionReads(f: Option<bytes>, t: bytes)
    requires f.Some? ==> IsDigits(f.value)
    requires t == [] || !(IsDigit(t[0]) || t[0] == DOT)
    ensures ReadFraction(FractionThen(f, t)) == Parsed(f, t)
  {
    hide Digits;
    if f.Some? {
      var text := [DOT] + (f.value + t);
      assert text[1..] == f.value + t;
      DigitsReads(f.value, t);
      assert text[1 + |f.value|..] == (f.value + t)[|f.value|..];
    }
  }

  /** Neither an exponent nor a fraction starts with a digit. */
  lemma EndsDigits(n: Num, t: bytes)
    requires NumOk(n) && (t == [] || !ExtendsNumber(t[0]))
    ensures var v := ExponentThen(n.exponent, t);
            var u := FractionThen(n.fraction, v);
            (v == [] || !(IsDigit(v[0]) || v[0] == DOT)) && (u == [] || !IsDigit(u[0]))
  {
    hide SignThen;
  }

  lemma MinusReads(minus: bool, d: bytes)
    requires d != [] && IsDigit(d[0])
    ensures var t := SignThen(if minus then Some(MINUS) else None, d);
            t != [] && (t[0] == MINUS <==> minus) && (if minus then t[1..] else t) == d
  {
  }

  lemma NumReads(n: Num, t: bytes)
    requires NumOk(n) && (t == [] || !ExtendsNumber(t[0]))
    ensures ReadNum(NumThen(n, t)) == Parsed(n, t)
  {
    hide SignThen, FractionThen, ExponentThen, ReadFraction, ReadExponent, Digits;
    var v := ExponentThen(n.exponent, t);
    var u := FractionThen(n.fraction, v);
    EndsDigits(n, t);
    ExponentReads(n.exponent, t);
    FractionReads(n.fraction, v);
    DigitsReads(n.whole, u);
    MinusReads(n.minus, n.whole + u);
  }

  lemma EscapeSplits(d: bytes, t: bytes)
    requires |d| == 4
    ensures ([BACKSLASH, LETTER_U] + (d + t))[2..6] == d
    ensures ([BACKSLASH, LETTER_U] + (d + t))[6..] == t
  {
  }

  lemma PieceReads(p: Piece, t: bytes)
    requires PieceOk(p)
    requires p.Hex? && IsHighSurrogate(Hex4(p.digits)) ==> !LowFollows(t)
    ensures PieceThen(p, t)[0] != QUOTE && ReadPiece(PieceThen(p, t)) == Parsed(p, t)
  {
    match p
    case Raw(c) =>
    case Short(e) =>
    case Hex(d) => EscapeSplits(d, t);
    case Pair(h, l) =>
      EscapeSplits(l, t);
      EscapeSplits(h, [BACKSLASH, LETTER_U] + (l + t));
  }

  /** What a piece must not be followed by, seen on the text that follows. */
  lemma LowFollowsPiece(p: Piece, t: bytes)
    requires PieceOk(p) && LowFollows(PieceThen(p, t))
    ensures p.Hex? && IsLowSurrogate(Hex4(p.digits))
  {
  }

  lemma NoLowFollows(ps: seq<Piece>, t: bytes)
    requires PiecesOk(ps) && ps != []
    ensures ps[0].Hex? && IsHighSurrogate(Hex4(ps[0].digits)) ==> !LowFollows(PiecesThen(ps[1..], [QUOTE] + t))
  {
    if |ps| > 1 && LowFollows(PiecesThen(ps[1..], [QUOTE] + t)) {
      LowFollowsPiece(ps[1], PiecesThen(ps[1..][1..], [QUOTE] + t));
    }
  }

  lemma {:induction false} PiecesReads(ps: seq<Piece>, t: bytes)
    requires PiecesOk(ps)
    ensures ReadPieces(PiecesThen(ps, [QUOTE] + t)) == Parsed(ps, t)
  {
    hide ReadPiece, PieceThen, LowFollows;
    if ps != [] {
      var u := PiecesThen(ps[1..], [QUOTE] + t);
      PiecesReads(ps[1..], t);
      NoLowFollows(ps, t);
      PieceReads(ps[0], u);
      assert ps == [ps[0]] + ps[1..];
    }
  }

  lemma TreeStarts(tree: Tree, t: bytes)
    requires Ok(tree)
    ensures TreeThen(tree, t) != [] && !IsSpace(TreeThen(tree, t)[0]) && TreeThen(tree, t)[0] != RBRACKET
  {
  }

  lemma {:induction false} TreeReads(tree: Tree, t: bytes)
    requires Ok(tree) && (tree.TNum? ==> t == [] || !ExtendsNumber(t[0]))
    ensures ReadTree(TreeThen(tree, t)) == Parsed(tree, t)
    decreases tree, 0
  {
    match tree
    case TNull => LiteralReads(NULL_TEXT, t);
    case TBool(b) => LiteralReads(if b then TRUE_TEXT else FALSE_TEXT, t);
    case TNum(n) => NumTreeReads(n, t);
    case TStr(ps) => PiecesReads(ps, t);
    case TEmptyArray(gap) => GapReads(gap, [RBRACKET] + t);
    case TArray(es) => ElemsReads(es, t);
    case TEmptyObject(gap) => GapReads(gap, [RBRACE] + t);
    case TObject(ms) => MembersReads(ms, t);
  }

  lemma LiteralReads(literal: bytes, t: bytes)
    requires literal in {TRUE_TEXT, FALSE_TEXT, NULL_TEXT}
    ensures ReadTree(literal + t)
         == Parsed(if literal == TRUE_TEXT then TBool(true)
                   else if literal == FALSE_TEXT then TBool(false)
                   else TNull, t)
  {
  }

  lemma NumTreeReads(n: Num, t: bytes)
    requires NumOk(n) && (t == [] || !ExtendsNumber(t[0]))
    ensures ReadTree(NumThen(n, t)) == Parsed(TNum(n), t)
  {
    NumReads(n, t);
    assert IsDigit(n.whole[0]);
  }

  lemma {:induction false} ElemsReads(es: Elems, t: bytes)
    requires ElemsOk(es)
    ensures ReadElems(ElemsThen(es, [RBRACKET] + t)) == Parsed(es, t)
    ensures var u := SkipGap(ElemsThen(es, [RBRACKET] + t)); u != [] && u[0] != RBRACKET
    decreases es, 0
  {
    hide ReadElem, ElemThen, ElemOk;
    match es
    case LastElem(e) => ElemReads(e, [RBRACKET] + t);
    case MoreElems(e, next) =>
      ElemReads(e, [COMMA] + ElemsThen(next, [RBRACKET] + t));
      ElemsReads(next, t);
  }

  lemma {:induction false} ElemReads(e: Elem, t: bytes)
    requires ElemOk(e) && t != [] && !IsSpace(t[0]) && !ExtendsNumber(t[0])
    ensures ReadElem(ElemThen(e, t)) == Parsed(e, t)
    ensures var u := SkipGap(ElemThen(e, t)); u != [] && u[0] != RBRACKET
    decreases e, 0
  {
    var v := e.after + t;
    TreeStarts(e.tree, v);
    GapReads(e.before, TreeThen(e.tree, v));
    GapReads(e.after, t);
    assert IsSpace(v[0]) || v[0] == t[0];
    TreeReads(e.tree, v);
  }

  lemma {:induction false} MembersReads(ms: Members, t: bytes)
    requires MembersOk(ms)
    ensures ReadMembers(MembersThen(ms, [RBRACE] + t)) == Parsed(ms, t)
    ensures var u := SkipGap(MembersThen(ms, [RBRACE] + t)); u != [] && u[0] != RBRACE
    decreases ms, 0
  {
    hide ReadMember, MemberThen, MemberOk;
    match ms
    case LastMember(m) => MemberReads(m, [RBRACE] + t);
    case MoreMembers(m, next) =>
      MemberReads(m, [COMMA] + MembersThen(next, [RBRACE] + t));
      MembersReads(next, t);
  }

  lemma {:induction false} MemberReads(m: Member, t: bytes)
    requires MemberOk(m) && t != [] && !IsSpace(t[0]) && !ExtendsNumber(t[0])
    ensures ReadMember(MemberThen(m, t)) == Parsed(m, t)
    ensures var u := SkipGap(MemberThen(m, t)); u != [] && u[0] == QUOTE
    decreases m, 0
  {
    var v := m.after + t;
    var u := TreeThen(m.tree, v);
    var x := [COLON] + (m.afterColon + u);
    TreeStarts(m.tree, v);
    GapReads(m.before, StringThen(m.key, m.beforeColon + x));
    PiecesReads(m.key, m.beforeColon + x);
    GapReads(m.beforeColon, x);
    GapReads(m.afterColon, u);
    assert IsSpace(v[0]) || v[0] == t[0];
    TreeReads(m.tree, v);
    GapReads(m.after, t);
  }

  // ---------------------------------------------------------------------------
  // Main results
  // ---------------------------------------------------------------------------

  /** Parsing undoes printing, whatever white space, escapes and digits the writer chose. */
  lemma DocReads(d: Doc)
    requires DocOk(d)
    ensures ReadDoc(DocText(d)) == Some(d)
  {
    TreeStarts(d.tree, d.after);
    GapReads(d.before, TreeThen(d.tree, d.after));
    assert d.after == [] || IsSpace(d.after[0]);
    TreeReads(d.tree, d.after);
    GapReads(d.after, []);
    assert d.after + [] == d.after;
  }

  /** The accepted language is the set of texts of `DocOk` documents, and no text has two derivations. */
  lemma ReadsExactlyTheGrammar(t: bytes, d: Doc)
    ensures ReadDoc(t) == Some(d) <==> DocOk(d) && DocText(d) == t
  {
    if ReadDoc(t) == Some(d) {
      TreeSound(SkipGap(t));
      GapSplits(t);
      GapSplits(d.after);
      assert d.after == Gap(d.after);
    } else if DocOk(d) && DocText(d) == t {
      DocReads(d);
    }
  }

  /** What js::parse returns for a text. */
  function ParsedValue(t: bytes): Option<Value> {
    match ReadDoc(t)
    case None => None
    case Some(d) =>
      assert DocOk(d) by { ReadsExactlyTheGrammar(t, d); }
      Some(Denote(d.tree))
  }

  /** A value comes out exactly for the texts that denote it. */
  lemma ParsesExactlyTheDenotation(t: bytes, v: Value)
    ensures ParsedValue(t) == Some(v) <==> exists d: Doc :: DocOk(d) && DocText(d) == t && Denote(d.tree) == v
  {
    if ParsedValue(t) == Some(v) {
      ReadsExactlyTheGrammar(t, ReadDoc(t).value);
    }
    forall d: Doc | DocOk(d) && DocText(d) == t && Denote(d.tree) == v
      ensures ParsedValue(t) == Some(v)
    {
      DocReads(d);
    }
  }

  // ---------------------------------------------------------------------------
  // RFC 8259
  // ---------------------------------------------------------------------------

  /** Section 2: white space is space, tab, line feed and carriage return. */
  predicate RfcGap(w: bytes) {
    forall k :: 0 <= k < |w| ==> w[k] in {0x20, 0x09, 0x0A, 0x0D}
  }

  /** Section 6: no leading zeros. */
  predicate RfcNum(n: Num) {
    NumOk(n) && (|n.whole| > 1 ==> n.whole[0] != 0x30)
  }

  /** Section 7: control characters are escaped. */
  predicate RfcPieces(ps: seq<Piece>) {
    PiecesOk(ps) && forall k :: 0 <= k < |ps| && ps[k].Raw? ==> ps[k].c >= 0x20
  }

  predicate RfcTree(t: Tree) {
    match t
    case TNull => true
    case TBool(_) => true
    case TNum(n) => RfcNum(n)
    case TStr(ps) => RfcPieces(ps)
    case TEmptyArray(gap) => RfcGap(gap)
    case TArray(es) => RfcElems(es)
    case TEmptyObject(gap) => RfcGap(gap)
    case TObject(ms) => RfcMembers(ms)
  }

  predicate RfcElems(es: Elems) {
    RfcElem(es.e) && (es.MoreElems? ==> RfcElems(es.next))
  }

  predicate RfcElem(e: Elem) {
    RfcGap(e.before) && RfcTree(e.tree) && RfcGap(e.after)
  }

  predicate RfcMembers(ms: Members) {
    RfcMember(ms.m) && (ms.MoreMembers? ==> RfcMembers(ms.next))
  }

  predicate RfcMember(m: Member) {
    RfcGap(m.before) && RfcPieces(m.key) && RfcGap(m.beforeColon) && RfcGap(m.afterColon) && RfcTree(m.tree)
    && RfcGap(m.after)
  }

  predicate RfcDoc(d: Doc) {
    RfcGap(d.before) && RfcTree(d.tree) && RfcGap(d.after)
  }

  lemma {:induction false} RfcTreeOk(t: Tree)
    requires RfcTree(t)
    ensures Ok(t)
  {
    match t
    case TArray(es) => RfcElemsOk(es);
    case TObject(ms) => RfcMembersOk(ms);
    case _ =>
  }

  lemma {:induction false} RfcElemsOk(es: Elems)
    requires RfcElems(es)
    ensures ElemsOk(es)
  {
    RfcTreeOk(es.e.tree);
    if es.MoreElems? {
      RfcElemsOk(es.next);
    }
  }

  lemma {:induction false} RfcMembersOk(ms: Members)
    requires RfcMembers(ms)
    ensures MembersOk(ms)
  {
    RfcTreeOk(ms.m.tree);
    if ms.MoreMembers? {
      RfcMembersOk(ms.next);
    }
  }

  /** Every RFC 8259 text is accepted with the value it denotes, and an accepted text is RFC 8259 exactly when
      its only derivation uses no leading zero, no \v or \f between tokens and no raw control byte. */
  lemma AcceptsRfc8259(t: bytes)
    ensures (exists d: Doc :: RfcDoc(d) && DocText(d) == t) <==> ReadDoc(t).Some? && RfcDoc(ReadDoc(t).value)
    ensures forall d: Doc :: RfcDoc(d) && DocText(d) == t ==> Ok(d.tree) && ParsedValue(t) == Some(Denote(d.tree))
  {
    forall d: Doc | RfcDoc(d) && DocText(d) == t
      ensures ReadDoc(t) == Some(d) && Ok(d.tree) && ParsedValue(t) == Some(Denote(d.tree))
    {
      RfcTreeOk(d.tree);
      DocReads(d);
    }
    if ReadDoc(t).Some? {
      ReadsExactlyTheGrammar(t, ReadDoc(t).value);
    }
  }
}
