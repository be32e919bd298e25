/** Concrete syntax trees of the JSON dialect that lib/dataservice/json.hpp reads.

    A tree records every choice a writer has (white space, escapes, digits), so printing is at once the
    printer and the grammar: a text is in the language exactly when it is the `DocText` of a document that is
    `DocOk`. Every printer `XThen(x, t)` writes `x` in front of the text `t` that follows it.
  */
module JsonSyntax {
  import opened Bytes

  const QUOTE: byte := 0x22
  const PLUS: byte := 0x2B
  const COMMA: byte := 0x2C
  const MINUS: byte := 0x2D
  const DOT: byte := 0x2E
  const COLON: byte := 0x3A
  const LBRACKET: byte := 0x5B
  const BACKSLASH: byte := 0x5C
  const RBRACKET: byte := 0x5D
  const LETTER_U: byte := 0x75
  const LBRACE: byte := 0x7B
  const RBRACE: byte := 0x7D
  const TRUE_TEXT: bytes := [0x74, 0x72, 0x75, 0x65]
  const FALSE_TEXT: bytes := [0x66, 0x61, 0x6C, 0x73, 0x65]
  const NULL_TEXT: bytes := [0x6E, 0x75, 0x6C, 0x6C]

  /** What a document denotes. A number stays the token handed to strtod. */
  datatype Value =
    | Null
    | Bool(b: bool)
    | Number(token: bytes)
    | Str(str: bytes)
    | Array(items: seq<Value>)
    | Object(fields: seq<Field>)

  datatype Field = Field(key: bytes, value: Value)

  // ---------------------------------------------------------------------------
  // Characters
  // ---------------------------------------------------------------------------

  /** isspace in the C locale: RFC 8259 white space plus vertical tab and form feed. */
  predicate IsSpace(c: byte) {
    c == 0x20 || 0x09 <= c <= 0x0D
  }

  predicate IsDigit(c: byte) {
    0x30 <= c <= 0x39
  }

  predicate IsHex(c: byte) {
    IsDigit(c) || 0x41 <= c <= 0x46 || 0x61 <= c <= 0x66
  }

  function HexDigit(c: byte): (v: nat)
    requires IsHex(c)
    ensures v < 16
  {
    if IsDigit(c) then c - 0x30 else if c <= 0x46 then c - 0x41 + 10 else c - 0x61 + 10
  }

  predicate IsHex4(d: bytes) {
    |d| == 4 && IsHex(d[0]) && IsHex(d[1]) && IsHex(d[2]) && IsHex(d[3])
  }

  function Hex4(d: bytes): (v: nat)
    requires IsHex4(d)
    ensures v < 0x10000
  {
    HexDigit(d[0]) * 4096 + HexDigit(d[1]) * 256 + HexDigit(d[2]) * 16 + HexDigit(d[3])
  }

  predicate IsHighSurrogate(cp: nat) {
    0xD800 <= cp <= 0xDBFF
  }

  predicate IsLowSurrogate(cp: nat) {
    0xDC00 <= cp <= 0xDFFF
  }

  function Combine(high: nat, low: nat): (cp: nat)
    requires IsHighSurrogate(high) && IsLowSurrogate(low)
    ensures 0x10000 <= cp <= 0x10FFFF
  {
    0x10000 + (high - 0xD800) * 1024 + (low - 0xDC00)
  }

  /** The one-letter escapes and the byte each stands for. */
  function ShortEscape(e: byte): Option<byte> {
    match e
    case 0x22 => Some(0x22)
    case 0x5C => Some(0x5C)
    case 0x2F => Some(0x2F)
    case 0x62 => Some(0x08)
    case 0x66 => Some(0x0C)
    case 0x6E => Some(0x0A)
    case 0x72 => Some(0x0D)
    case 0x74 => Some(0x09)
    case _ => None
  }

  /** UTF-8 octets of a code point (RFC 3629, section 3); surrogates get their three-octet form. */
  function Utf8(cp: nat): bytes
    requires cp <= 0x10FFFF
  {
    if cp < 0x80 then [cp]
    else if cp < 0x800 then [0xC0 + cp / 64, 0x80 + cp % 64]
    else if cp < 0x10000 then [0xE0 + cp / 4096, 0x80 + cp / 64 % 64, 0x80 + cp % 64]
    else [0xF0 + cp / 262144, 0x80 + cp / 4096 % 64, 0x80 + cp / 64 % 64, 0x80 + cp % 64]
  }

  // ---------------------------------------------------------------------------
  // Strings
  // ---------------------------------------------------------------------------

  datatype Piece =
    | Raw(c: byte)
    | Short(e: byte)
    | Hex(digits: bytes)
    | Pair(high: bytes, low: bytes)

  predicate PieceOk(p: Piece) {
    match p
    case Raw(c) => c != QUOTE && c != BACKSLASH
    case Short(e) => ShortEscape(e).Some?
    case Hex(d) => IsHex4(d)
    case Pair(h, l) => IsHex4(h) && IsHex4(l) && IsHighSurrogate(Hex4(h)) && IsLowSurrogate(Hex4(l))
  }

  function PieceThen(p: Piece, t: bytes): (r: bytes)
    ensures |r| > |t|
  {
    match p
    case Raw(c) => [c] + t
    case Short(e) => [BACKSLASH, e] + t
    case Hex(d) => [BACKSLASH, LETTER_U] + (d + t)
    case Pair(h, l) => [BACKSLASH, LETTER_U] + (h + ([BACKSLASH, LETTER_U] + (l + t)))
  }

  function PieceValue(p: Piece): bytes
    requires PieceOk(p)
  {
    match p
    case Raw(c) => [c]
    case Short(e) => [ShortEscape(e).value]
    case Hex(d) => Utf8(Hex4(d))
    case Pair(h, l) => Utf8(Combine(Hex4(h), Hex4(l)))
  }

  /** Two \u escapes that form a surrogate pair are always read as the pair. */
  predicate Splits(p: Piece, q: Piece) {
    p.Hex? && q.Hex? && IsHex4(p.digits) && IsHex4(q.digits)
    && IsHighSurrogate(Hex4(p.digits)) && IsLowSurrogate(Hex4(q.digits))
  }

  predicate PiecesOk(ps: seq<Piece>) {
    ps == [] || (PieceOk(ps[0]) && (|ps| > 1 ==> !Splits(ps[0], ps[1])) && PiecesOk(ps[1..]))
  }

  function PiecesThen(ps: seq<Piece>, t: bytes): bytes {
    if ps == [] then t else PieceThen(ps[0], PiecesThen(ps[1..], t))
  }

  function PiecesValue(ps: seq<Piece>): bytes
    requires PiecesOk(ps)
  {
    if ps == [] then [] else PieceValue(ps[0]) + PiecesValue(ps[1..])
  }

  function StringThen(ps: seq<Piece>, t: bytes): bytes {
    [QUOTE] + PiecesThen(ps, [QUOTE] + t)
  }

  // ---------------------------------------------------------------------------
  // Numbers
  // ---------------------------------------------------------------------------

  datatype Exponent = Exponent(mark: byte, sign: Option<byte>, digits: bytes)

  datatype Num = Num(minus: bool, whole: bytes, fraction: Option<bytes>, exponent: Option<Exponent>)

  predicate IsDigits(d: bytes) {
    d != [] && forall k :: 0 <= k < |d| ==> IsDigit(d[k])
  }

  predicate ExponentOk(e: Exponent) {
    (e.mark == 0x65 || e.mark == 0x45)
    && (e.sign.Some? ==> e.sign.value == PLUS || e.sign.value == MINUS)
    && IsDigits(e.digits)
  }

  predicate NumOk(n: Num) {
    IsDigits(n.whole)
    && (n.fraction.Some? ==> IsDigits(n.fraction.value))
    && (n.exponent.Some? ==> ExponentOk(n.exponent.value))
  }

  function FractionThen(f: Option<bytes>, t: bytes): bytes {
    if f.None? then t else [DOT] + (f.value + t)
  }

  function SignThen(sign: Option<byte>, t: bytes): bytes {
    if sign.None? then t else [sign.value] + t
  }

  function ExponentThen(e: Option<Exponent>, t: bytes): bytes {
    if e.None? then t else [e.value.mark] + SignThen(e.value.sign, e.value.digits + t)
  }

  function NumThen(n: Num, t: bytes): bytes {
    SignThen(if n.minus then Some(MINUS) else None, n.whole + FractionThen(n.fraction, ExponentThen(n.exponent, t)))
  }

  lemma Assoc(a: bytes, b: bytes, c: bytes)
    ensures (a + b) + c == a + (b + c)
  {
  }

  lemma NumInFront(n: Num, t: bytes)
    ensures NumThen(n, t) == NumText(n) + t
  {
    hide SignThen, FractionThen, ExponentThen;
    var e := ExponentThen(n.exponent, []);
    var f := FractionThen(n.fraction, e);
    ExponentInFront(n.exponent, t);
    FractionInFront(n.fraction, e, t);
    Assoc(n.whole, f, t);
    SignInFront(if n.minus then Some(MINUS) else None, n.whole + f, t);
  }

  lemma SignInFront(sign: Option<byte>, s: bytes, t: bytes)
    ensures SignThen(sign, s + t) == SignThen(sign, s) + t
  {
    if sign.Some? {
      Assoc([sign.value], s, t);
    }
  }

  lemma FractionInFront(f: Option<bytes>, s: bytes, t: bytes)
    ensures FractionThen(f, s + t) == FractionThen(f, s) + t
  {
    if f.Some? {
      Assoc(f.value, s, t);
      Assoc([DOT], f.value + s, t);
    }
  }

  lemma ExponentInFront(e: Option<Exponent>, t: bytes)
    ensures ExponentThen(e, t) == ExponentThen(e, []) + t
  {
    hide SignThen;
    if e.Some? {
      assert e.value.digits + [] == e.value.digits;
      SignInFront(e.value.sign, e.value.digits, t);
      Assoc([e.value.mark], SignThen(e.value.sign, e.value.digits), t);
    }
  }

  /** The token that strtod converts. */
  function NumText(n: Num): bytes {
    NumThen(n, [])
  }

  // ---------------------------------------------------------------------------
  // Values and documents
  // ---------------------------------------------------------------------------

  datatype Tree =
    | TNull
    | TBool(b: bool)
    | TNum(n: Num)
    | TStr(pieces: seq<Piece>)
    | TEmptyArray(gap: bytes)
    | TArray(elems: Elems)
    | TEmptyObject(gap: bytes)
    | TObject(members: Members)

  datatype Elems = LastElem(e: Elem) | MoreElems(e: Elem, next: Elems)

  datatype Elem = Elem(before: bytes, tree: Tree, after: bytes)

  datatype Members = LastMember(m: Member) | MoreMembers(m: Member, next: Members)

  datatype Member = Member(before: bytes, key: seq<Piece>, beforeColon: bytes, afterColon: bytes, tree: Tree,
                           after: bytes)

  datatype Doc = Doc(before: bytes, tree: Tree, after: bytes)

  predicate IsGap(w: bytes) {
    forall k :: 0 <= k < |w| ==> IsSpace(w[k])
  }

  predicate Ok(t: Tree) {
    match t
    case TNull => true
    case TBool(_) => true
    case TNum(n) => NumOk(n)
    case TStr(ps) => PiecesOk(ps)
    case TEmptyArray(gap) => IsGap(gap)
    case TArray(es) => ElemsOk(es)
    case TEmptyObject(gap) => IsGap(gap)
    case TObject(ms) => MembersOk(ms)
  }

  predicate ElemsOk(es: Elems) {
    ElemOk(es.e) && (es.MoreElems? ==> ElemsOk(es.next))
  }

  predicate ElemOk(e: Elem) {
    IsGap(e.before) && Ok(e.tree) && IsGap(e.after)
  }

  predicate MembersOk(ms: Members) {
    MemberOk(ms.m) && (ms.MoreMembers? ==> MembersOk(ms.next))
  }

  predicate MemberOk(m: Member) {
    IsGap(m.before) && PiecesOk(m.key) && IsGap(m.beforeColon) && IsGap(m.afterColon) && Ok(m.tree) && IsGap(m.after)
  }

  predicate DocOk(d: Doc) {
    IsGap(d.before) && Ok(d.tree) && IsGap(d.after)
  }

  function TreeThen(tree: Tree, t: bytes): bytes {
    match tree
    case TNull => NULL_TEXT + t
    case TBool(b) => (if b then TRUE_TEXT else FALSE_TEXT) + t
    case TNum(n) => NumThen(n, t)
    case TStr(ps) => StringThen(ps, t)
    case TEmptyArray(gap) => [LBRACKET] + (gap + ([RBRACKET] + t))
    case TArray(es) => [LBRACKET] + ElemsThen(es, [RBRACKET] + t)
    case TEmptyObject(gap) => [LBRACE] + (gap + ([RBRACE] + t))
    case TObject(ms) => [LBRACE] + MembersThen(ms, [RBRACE] + t)
  }

  function ElemsThen(es: Elems, t: bytes): bytes {
    match es
    case LastElem(e) => ElemThen(e, t)
    case MoreElems(e, next) => ElemThen(e, [COMMA] + ElemsThen(next, t))
  }

  function ElemThen(e: Elem, t: bytes): bytes {
    e.before + TreeThen(e.tree, e.after + t)
  }

  function MembersThen(ms: Members, t: bytes): bytes {
    match ms
    case LastMember(m) => MemberThen(m, t)
    case MoreMembers(m, next) => MemberThen(m, [COMMA] + MembersThen(next, t))
  }

  function MemberThen(m: Member, t: bytes): bytes {
    m.before + StringThen(m.key, m.beforeColon + ([COLON] + (m.afterColon + TreeThen(m.tree, m.after + t))))
  }

  function DocText(d: Doc): bytes {
    d.before + TreeThen(d.tree, d.after)
  }

  function Denote(t: Tree): Value
    requires Ok(t)
  {
    match t
    case TNull => Null
    case TBool(b) => Bool(b)
    case TNum(n) => Number(NumText(n))
    case TStr(ps) => Str(PiecesValue(ps))
    case TEmptyArray(_) => Array([])
    case TArray(es) => Array(DenoteElems(es))
    case TEmptyObject(_) => Object([])
    case TObject(ms) => Object(DenoteMembers(ms))
  }

  function DenoteElems(es: Elems): seq<Value>
    requires ElemsOk(es)
  {
    [DenoteElem(es.e)] + if es.LastElem? then [] else DenoteElems(es.next)
  }

  function DenoteElem(e: Elem): Value
    requires ElemOk(e)
  {
    Denote(e.tree)
  }

  function DenoteMembers(ms: Members): seq<Field>
    requires MembersOk(ms)
  {
    [DenoteMember(ms.m)] + if ms.LastMember? then [] else DenoteMembers(ms.next)
  }

  function DenoteMember(m: Member): Field
    requires MemberOk(m)
  {
    Field(PiecesValue(m.key), Denote(m.tree))
  }
}
