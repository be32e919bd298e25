/** From a whole document of json.hpp to its strings, object keys among them: the document is UTF-8 exactly when the
    text of every string is, and then the strings of its value are UTF-8 exactly when no surrogate is unpaired. */
module JsonDocUtf8 {
  import opened Bytes
  import opened JsonSyntax
  import opened JsonReader
  import opened JsonUtf8

  // ---------------------------------------------------------------------------
  // The strings of a document and of a value
  // ---------------------------------------------------------------------------

  function StringsOf(tree: Tree): set<seq<Piece>> {
    match tree
    case TStr(ps) => {ps}
    case TArray(es) => StringsOfElems(es)
    case TObject(ms) => StringsOfMembers(ms)
    case _ => {}
  }

  function StringsOfElems(es: Elems): set<seq<Piece>> {
    StringsOf(es.e.tree) + if es.LastElem? then {} else StringsOfElems(es.next)
  }

  function StringsOfMembers(ms: Members): set<seq<Piece>> {
    {ms.m.key} + StringsOf(ms.m.tree) + if ms.LastMember? then {} else StringsOfMembers(ms.next)
  }

  function StringsIn(v: Value): set<bytes> {
    match v
    case Str(s) => {s}
    case Array(items) => StringsInItems(items)
    case Object(fields) => StringsInFields(fields)
    case _ => {}
  }

  function StringsInItems(items: seq<Value>): set<bytes> {
    if items == [] then {} else StringsIn(items[0]) + StringsInItems(items[1..])
  }

  function StringsInFields(fields: seq<Field>): set<bytes> {
    if fields == [] then {} else {fields[0].key} + StringsIn(fields[0].value) + StringsInFields(fields[1..])
  }

  lemma {:induction false} StringsAreOk(tree: Tree)
    requires Ok(tree)
    ensures forall ps :: ps in StringsOf(tree) ==> PiecesOk(ps)
    decreases tree, 0
  {
    hide PiecesOk, NumOk;
    match tree
    case TArray(es) => StringsOfElemsAreOk(es);
    case TObject(ms) => StringsOfMembersAreOk(ms);
    case _ =>
  }

  lemma {:induction false} StringsOfElemsAreOk(es: Elems)
    requires ElemsOk(es)
    ensures forall ps :: ps in StringsOfElems(es) ==> PiecesOk(ps)
    decreases es, 1
  {
    hide PiecesOk, Ok;
    StringsAreOk(es.e.tree);
    if es.MoreElems? {
      StringsOfElemsAreOk(es.next);
    }
  }

  lemma {:induction false} StringsOfMembersAreOk(ms: Members)
    requires MembersOk(ms)
    ensures forall ps :: ps in StringsOfMembers(ms) ==> PiecesOk(ps)
    decreases ms, 1
  {
    hide PiecesOk, Ok;
    StringsAreOk(ms.m.tree);
    if ms.MoreMembers? {
      StringsOfMembersAreOk(ms.next);
    }
  }

  /** What stands between the quotes is UTF-8. */
  ghost predicate TextsUtf8(strings: set<seq<Piece>>) {
    forall ps :: ps in strings ==> IsUtf8(PiecesThen(ps, []))
  }

  ghost predicate PairedIn(strings: set<seq<Piece>>) {
    forall ps :: ps in strings ==> AllPaired(ps)
  }

  ghost predicate AllUtf8(strings: set<bytes>) {
    forall s :: s in strings ==> IsUtf8(s)
  }

  lemma TextsOfUnion(a: set<seq<Piece>>, b: set<seq<Piece>>)
    ensures TextsUtf8(a + b) <==> TextsUtf8(a) && TextsUtf8(b)
    ensures PairedIn(a + b) <==> PairedIn(a) && PairedIn(b)
  {
    assert forall ps :: ps in a || ps in b ==> ps in a + b;
  }

  lemma AllOfUnion(a: set<bytes>, b: set<bytes>)
    ensures AllUtf8(a + b) <==> AllUtf8(a) && AllUtf8(b)
  {
    assert forall s :: s in a || s in b ==> s in a + b;
  }

  // ---------------------------------------------------------------------------
  // Octets below 0x80 separate
  // ---------------------------------------------------------------------------

  /** No code point reaches over an octet below 0x80. */
  lemma DecodeStopsBefore(a: bytes, c: byte, t: bytes)
    requires a != [] && c < 0x80
    ensures Decode(a + ([c] + t)) == Decode(a)
  {
    var s := a + ([c] + t);
    assert s[0] == a[0] && s[|a|] == c;
    assert |a| > 1 ==> s[1] == a[1];
    assert |a| > 2 ==> s[2] == a[2];
    assert |a| > 3 ==> s[3] == a[3];
  }

  lemma {:induction false} AsciiSplits(a: bytes, c: byte, t: bytes)
    requires c < 0x80
    ensures IsUtf8(a + ([c] + t)) <==> IsUtf8(a) && IsUtf8(t)
    decreases |a|
  {
    hide Decode;
    if a == [] {
      assert a + ([c] + t) == [c] + t;
      AsciiSkip([c], t);
    } else {
      DecodeStopsBefore(a, c, t);
      DecodeBounds(a);
      if Decode(a).Some? {
        var n := Decode(a).value.1;
        AsciiSplits(a[n..], c, t);
        assert (a + ([c] + t))[n..] == a[n..] + ([c] + t);
      }
    }
  }

  lemma PieceInFront(p: Piece, s: bytes, t: bytes)
    ensures PieceThen(p, s + t) == PieceThen(p, s) + t
  {
    match p
    case Raw(c) => Assoc([c], s, t);
    case Short(e) => Assoc([BACKSLASH, e], s, t);
    case Hex(d) =>
      Assoc(d, s, t);
      Assoc([BACKSLASH, LETTER_U], d + s, t);
    case Pair(h, l) =>
      Assoc(l, s, t);
      Assoc([BACKSLASH, LETTER_U], l + s, t);
      Assoc(h, [BACKSLASH, LETTER_U] + (l + s), t);
      Assoc([BACKSLASH, LETTER_U], h + ([BACKSLASH, LETTER_U] + (l + s)), t);
  }

  lemma {:induction false} PiecesInFront(ps: seq<Piece>, t: bytes)
    ensures PiecesThen(ps, t) == PiecesThen(ps, []) + t
  {
    hide PieceThen;
    if ps == [] {
      assert [] + t == t;
    } else {
      PiecesInFront(ps[1..], t);
      PieceInFront(ps[0], PiecesThen(ps[1..], []), t);
    }
  }

  lemma StringSkip(ps: seq<Piece>, t: bytes)
    ensures IsUtf8(StringThen(ps, t)) <==> IsUtf8(PiecesThen(ps, [])) && IsUtf8(t)
  {
    hide IsUtf8, PiecesThen;
    AsciiSkip([QUOTE], PiecesThen(ps, [QUOTE] + t));
    PiecesInFront(ps, [QUOTE] + t);
    AsciiSplits(PiecesThen(ps, []), QUOTE, t);
  }

  lemma GapSkip(w: bytes, t: bytes)
    requires IsGap(w)
    ensures IsUtf8(w + t) <==> IsUtf8(t)
  {
    AsciiSkip(w, t);
  }

  lemma FractionSkip(f: Option<bytes>, t: bytes)
    requires f.Some? ==> IsDigits(f.value)
    ensures IsUtf8(FractionThen(f, t)) <==> IsUtf8(t)
  {
    hide IsUtf8;
    if f.Some? {
      AsciiSkip(f.value, t);
      AsciiSkip([DOT], f.value + t);
    }
  }

  lemma SignSkip(sign: Option<byte>, t: bytes)
    requires sign.Some? ==> sign.value == PLUS || sign.value == MINUS
    ensures IsUtf8(SignThen(sign, t)) <==> IsUtf8(t)
  {
    hide IsUtf8;
    if sign.Some? {
      AsciiSkip([sign.value], t);
    }
  }

  lemma ExponentSkip(e: Option<Exponent>, t: bytes)
    requires e.Some? ==> ExponentOk(e.value)
    ensures IsUtf8(ExponentThen(e, t)) <==> IsUtf8(t)
  {
    hide IsUtf8, SignThen;
    if e.Some? {
      AsciiSkip(e.value.digits, t);
      SignSkip(e.value.sign, e.value.digits + t);
      AsciiSkip([e.value.mark], SignThen(e.value.sign, e.value.digits + t));
    }
  }

  lemma NumSkip(n: Num, t: bytes)
    requires NumOk(n)
    ensures IsUtf8(NumThen(n, t)) <==> IsUtf8(t)
  {
    hide IsUtf8, SignThen, FractionThen, ExponentThen;
    var v := ExponentThen(n.exponent, t);
    ExponentSkip(n.exponent, t);
    FractionSkip(n.fraction, v);
    AsciiSkip(n.whole, FractionThen(n.fraction, v));
    SignSkip(if n.minus then Some(MINUS) else None, n.whole + FractionThen(n.fraction, v));
  }

  // ---------------------------------------------------------------------------
  // Whole documents
  // ---------------------------------------------------------------------------

  lemma {:induction false} TreeSkip(tree: Tree, t: bytes)
    requires Ok(tree)
    ensures IsUtf8(TreeThen(tree, t)) <==> TextsUtf8(StringsOf(tree)) && IsUtf8(t)
    decreases tree, 0
  {
    hide IsUtf8, NumThen, NumOk, StringThen, PiecesOk, PiecesThen, IsGap;
    match tree
    case TNull => AsciiSkip(NULL_TEXT, t);
    case TBool(b) => AsciiSkip(if b then TRUE_TEXT else FALSE_TEXT, t);
    case TNum(n) => NumSkip(n, t);
    case TStr(ps) =>
      StringSkip(ps, t);
      assert ps in StringsOf(tree);
    case TEmptyArray(gap) =>
      AsciiSkip([RBRACKET], t);
      GapSkip(gap, [RBRACKET] + t);
      AsciiSkip([LBRACKET], gap + ([RBRACKET] + t));
    case TArray(es) =>
      AsciiSkip([RBRACKET], t);
      ElemsSkip(es, [RBRACKET] + t);
      AsciiSkip([LBRACKET], ElemsThen(es, [RBRACKET] + t));
    case TEmptyObject(gap) =>
      AsciiSkip([RBRACE], t);
      GapSkip(gap, [RBRACE] + t);
      AsciiSkip([LBRACE], gap + ([RBRACE] + t));
    case TObject(ms) =>
      AsciiSkip([RBRACE], t);
      MembersSkip(ms, [RBRACE] + t);
      AsciiSkip([LBRACE], MembersThen(ms, [RBRACE] + t));
  }

  lemma {:induction false} ElemsSkip(es: Elems, t: bytes)
    requires ElemsOk(es)
    ensures IsUtf8(ElemsThen(es, t)) <==> TextsUtf8(StringsOfElems(es)) && IsUtf8(t)
    decreases es, 2
  {
    hide IsUtf8, ElemThen, ElemOk, TextsUtf8, StringsOf;
    if es.LastElem? {
      ElemSkip(es.e, t);
      assert StringsOfElems(es) == StringsOf(es.e.tree);
    } else {
      ElemsSkip(es.next, t);
      AsciiSkip([COMMA], ElemsThen(es.next, t));
      ElemSkip(es.e, [COMMA] + ElemsThen(es.next, t));
      TextsOfUnion(StringsOf(es.e.tree), StringsOfElems(es.next));
    }
  }

  lemma {:induction false} ElemSkip(e: Elem, t: bytes)
    requires ElemOk(e)
    ensures IsUtf8(ElemThen(e, t)) <==> TextsUtf8(StringsOf(e.tree)) && IsUtf8(t)
    decreases e, 1
  {
    hide IsUtf8, TreeThen, Ok, IsGap, TextsUtf8, StringsOf;
    GapSkip(e.after, t);
    TreeSkip(e.tree, e.after + t);
    GapSkip(e.before, TreeThen(e.tree, e.after + t));
  }

  lemma {:induction false} MembersSkip(ms: Members, t: bytes)
    requires MembersOk(ms)
    ensures IsUtf8(MembersThen(ms, t)) <==> TextsUtf8(StringsOfMembers(ms)) && IsUtf8(t)
    decreases ms, 2
  {
    hide IsUtf8, MemberThen, MemberOk, TextsUtf8, StringsOf;
    var first := {ms.m.key} + StringsOf(ms.m.tree);
    if ms.LastMember? {
      MemberSkip(ms.m, t);
      assert StringsOfMembers(ms) == first;
    } else {
      MembersSkip(ms.next, t);
      AsciiSkip([COMMA], MembersThen(ms.next, t));
      MemberSkip(ms.m, [COMMA] + MembersThen(ms.next, t));
      TextsOfUnion(first, StringsOfMembers(ms.next));
    }
  }

  lemma {:induction false} MemberSkip(m: Member, t: bytes)
    requires MemberOk(m)
    ensures IsUtf8(MemberThen(m, t)) <==> TextsUtf8({m.key} + StringsOf(m.tree)) && IsUtf8(t)
    decreases m, 1
  {
    hide IsUtf8, TreeThen, StringThen, PiecesThen, PiecesOk, Ok, IsGap, StringsOf;
    var u := TreeThen(m.tree, m.after + t);
    GapSkip(m.after, t);
    TreeSkip(m.tree, m.after + t);
    GapSkip(m.afterColon, u);
    AsciiSkip([COLON], m.afterColon + u);
    GapSkip(m.beforeColon, [COLON] + (m.afterColon + u));
    StringSkip(m.key, m.beforeColon + ([COLON] + (m.afterColon + u)));
    GapSkip(m.before, StringThen(m.key, m.beforeColon + ([COLON] + (m.afterColon + u))));
    TextsOfUnion({m.key}, StringsOf(m.tree));
  }

  // ---------------------------------------------------------------------------
  // The strings of the value
  // ---------------------------------------------------------------------------

  lemma {:induction false} ValueUtf8(tree: Tree)
    requires Ok(tree) && TextsUtf8(StringsOf(tree))
    ensures AllUtf8(StringsIn(Denote(tree))) <==> PairedIn(StringsOf(tree))
    decreases tree, 0
  {
    hide IsUtf8, NumOk, NumText, PiecesOk, PiecesThen, PiecesValue, IsGap, AllPaired;
    match tree
    case TStr(ps) =>
      assert ps in StringsOf(tree) && PiecesValue(ps) in StringsIn(Denote(tree));
      StringIsUtf8(ps);
    case TArray(es) => ItemsUtf8(es);
    case TObject(ms) => FieldsUtf8(ms);
    case _ =>
  }

  lemma {:induction false} ItemsUtf8(es: Elems)
    requires ElemsOk(es) && TextsUtf8(StringsOfElems(es))
    ensures AllUtf8(StringsInItems(DenoteElems(es))) <==> PairedIn(StringsOfElems(es))
    decreases es, 1
  {
    hide IsUtf8, Denote, Ok, IsGap, TextsUtf8, AllUtf8, PairedIn, StringsOf, StringsIn;
    var rest := if es.LastElem? then {} else StringsOfElems(es.next);
    var items := DenoteElems(es);
    TextsOfUnion(StringsOf(es.e.tree), rest);
    AllOfUnion(StringsIn(items[0]), StringsInItems(items[1..]));
    ValueUtf8(es.e.tree);
    if es.LastElem? {
      assert items[1..] == [];
      NoStrings();
    } else {
      assert items[1..] == DenoteElems(es.next);
      ItemsUtf8(es.next);
    }
  }

  lemma NoStrings()
    ensures AllUtf8({}) && PairedIn({})
  {
  }

  lemma {:induction false} FieldsUtf8(ms: Members)
    requires MembersOk(ms) && TextsUtf8(StringsOfMembers(ms))
    ensures AllUtf8(StringsInFields(DenoteMembers(ms))) <==> PairedIn(StringsOfMembers(ms))
    decreases ms, 2
  {
    hide IsUtf8, Denote, Ok, IsGap, PiecesOk, PiecesValue, MemberOk, TextsUtf8, AllUtf8, PairedIn, StringsOf, StringsIn;
    var first := {ms.m.key} + StringsOf(ms.m.tree);
    var rest := if ms.LastMember? then {} else StringsOfMembers(ms.next);
    var fields := DenoteMembers(ms);
    TextsOfUnion(first, rest);
    AllOfUnion({fields[0].key} + StringsIn(fields[0].value), StringsInFields(fields[1..]));
    FieldUtf8(ms.m);
    if ms.LastMember? {
      assert fields[1..] == [];
      NoStrings();
    } else {
      assert fields[1..] == DenoteMembers(ms.next);
      FieldsUtf8(ms.next);
    }
  }

  lemma {:induction false} FieldUtf8(m: Member)
    requires MemberOk(m) && TextsUtf8({m.key} + StringsOf(m.tree))
    ensures AllUtf8({DenoteMember(m).key} + StringsIn(DenoteMember(m).value)) <==> PairedIn({m.key} + StringsOf(m.tree))
    decreases m, 1
  {
    hide IsUtf8, Denote, Ok, IsGap, PiecesOk, PiecesValue, PiecesThen, AllPaired, StringsOf, StringsIn;
    TextsOfUnion({m.key}, StringsOf(m.tree));
    AllOfUnion({PiecesValue(m.key)}, StringsIn(Denote(m.tree)));
    assert m.key in {m.key} && PiecesValue(m.key) in {PiecesValue(m.key)};
    StringIsUtf8(m.key);
    ValueUtf8(m.tree);
  }

  /** A text that is read as a document is UTF-8 exactly when what stands between the quotes of each of its strings is.
      Then a string, or key, is UTF-8 exactly when no surrogate escape in it is unpaired; and all strings of the value
      are exactly when none is in the document. */
  lemma DocumentIsUtf8(t: bytes, d: Doc)
    requires ReadDoc(t) == Some(d)
    ensures Ok(d.tree) && ParsedValue(t) == Some(Denote(d.tree))
    ensures IsUtf8(t) <==> TextsUtf8(StringsOf(d.tree))
    ensures forall ps :: ps in StringsOf(d.tree) ==>
              PiecesOk(ps) && (IsUtf8(t) ==> (IsUtf8(PiecesValue(ps)) <==> AllPaired(ps)))
    ensures IsUtf8(t) ==> (AllUtf8(StringsIn(Denote(d.tree))) <==> PairedIn(StringsOf(d.tree)))
  {
    hide IsUtf8, PiecesOk, PiecesThen, PiecesValue, AllPaired, TreeThen, Ok, Denote, StringsOf, StringsIn, IsGap,
      ReadDoc;
    ReadsExactlyTheGrammar(t, d);
    GapSkip(d.after, []);
    assert d.after + [] == d.after;
    TreeSkip(d.tree, d.after);
    GapSkip(d.before, TreeThen(d.tree, d.after));
    assert IsUtf8([]) by { Nothing(); }
    StringsAreOk(d.tree);
    if IsUtf8(t) {
      ValueUtf8(d.tree);
      forall ps | ps in StringsOf(d.tree)
        ensures IsUtf8(PiecesValue(ps)) <==> AllPaired(ps)
      {
        StringIsUtf8(ps);
      }
    }
  }

  lemma Nothing()
    ensures IsUtf8([])
  {
  }
}
