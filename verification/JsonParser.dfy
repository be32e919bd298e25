/** The parser object of json.hpp: a cursor over the input that every routine moves forward, and back once,
    when what follows a high surrogate is not its partner. Each routine is proved against `JsonReader`.
  */
module JsonParser {
  import opened Bytes
  import opened JsonSyntax
  import opened JsonReader
  import opened JsonWritten

  lemma WrittenIs(s: bytes)
    ensures forall v :: ParsedValue(s) == Some(v) <==> WritesPadded(v, s)
  {
    hide ParsedValue, WritesPadded;
    forall v
      ensures ParsedValue(s) == Some(v) <==> WritesPadded(v, s)
    {
      ParsesExactlyWhatIsWritten(s, v);
    }
  }

  /** A routine returned `r` and left `rest` where the reading function returns `p`. */
  ghost predicate Agrees(r: Option<Value>, rest: bytes, p: Parsed<Tree>) {
    match p
    case Failed => r.None?
    case Parsed(tree, q) => Ok(tree) && r == Some(Denote(tree)) && rest == q
  }

  class Parser {
    const s: bytes
    var pos: nat

    constructor (text: bytes)
      ensures s == text && pos == 0
    {
      s := text;
      pos := 0;
    }

    ghost predicate Valid()
      reads this`pos
    {
      pos <= |s|
    }

    function Rest(): bytes
      requires Valid()
      reads this`pos
    {
      s[pos..]
    }

    /** js::parse: the whole input must be one value. */
    method Parse() returns (r: Option<Value>)
      requires pos == 0
      modifies this`pos
      ensures r == ParsedValue(s)
      ensures forall v :: r == Some(v) <==> WritesPadded(v, s)
    {
      hide WritesPadded;
      WrittenIs(s);
      assert Rest() == s;
      r := ParseValue();
      if r.Some? {
        ghost var after := Rest();
        GapSplits(after);
        SkipWs();
        if pos != |s| {
          r := None;
        }
      }
    }

    method SkipWs()
      requires Valid()
      modifies this`pos
      ensures Valid() && pos >= old(pos) && Rest() == SkipGap(old(Rest()))
    {
      while pos < |s| && IsSpace(s[pos])
        invariant old(pos) <= pos <= |s| && SkipGap(Rest()) == SkipGap(old(Rest()))
      {
        assert Rest()[1..] == s[pos + 1..];
        pos := pos + 1;
      }
      assert Gap(Rest()) == [];
    }

    method Expect(c: byte) returns (ok: bool)
      requires Valid()
      modifies this`pos
      ensures Valid() && ok == (old(Rest()) != [] && old(Rest())[0] == c)
      ensures Rest() == if ok then old(Rest())[1..] else old(Rest())
      ensures pos == if ok then old(pos) + 1 else old(pos)
    {
      if pos < |s| && s[pos] == c {
        pos := pos + 1;
        ok := true;
      } else {
        ok := false;
      }
    }

    method ParseValue() returns (r: Option<Value>)
      requires Valid()
      modifies this`pos
      ensures Valid() && Agrees(r, Rest(), ReadTree(SkipGap(old(Rest()))))
      ensures r.Some? ==> pos > old(pos)
      decreases |s| - pos, 0
    {
      hide ReadTree, ReadArray, ReadObject, ReadPieces, ReadNum, ReadLiteral, PiecesOk, PiecesValue, ElemsOk, MembersOk,
        NumOk, NumText, DenoteElems, DenoteMembers, Agrees, Gap, SkipGap;
      SkipWs();
      ghost var t := Rest();
      TreeParts(t);
      if pos == |s| {
        return None;
      }
      var c := s[pos];
      if c == LBRACE {
        r := ParseObject();
      } else if c == LBRACKET {
        r := ParseArray();
      } else if c == QUOTE {
        var str := ParseString();
        r := if str.Some? then Some(Str(str.value)) else None;
        TextAgrees(t, str, Rest());
      } else if c == 0x74 {
        r := ParseLiteral(TRUE_TEXT, Bool(true), TBool(true));
      } else if c == 0x66 {
        r := ParseLiteral(FALSE_TEXT, Bool(false), TBool(false));
      } else if c == 0x6E {
        r := ParseLiteral(NULL_TEXT, Null, TNull);
      } else if c == MINUS || IsDigit(c) {
        r := ParseNumber();
        NumberAgrees(t, r, Rest());
      } else {
        r := None;
      }
    }

    /** Which value a text can only be. */
    static lemma TreeParts(t: bytes)
      ensures if t == [] then ReadTree(t).Failed?
              else if t[0] == LBRACE then ReadTree(t) == ReadObject(t[1..])
              else if t[0] == LBRACKET then ReadTree(t) == ReadArray(t[1..])
              else if t[0] == 0x74 then ReadTree(t) == ReadLiteral(t, TRUE_TEXT, TBool(true))
              else if t[0] == 0x66 then ReadTree(t) == ReadLiteral(t, FALSE_TEXT, TBool(false))
              else if t[0] == 0x6E then ReadTree(t) == ReadLiteral(t, NULL_TEXT, TNull)
              else t[0] == QUOTE || t[0] == MINUS || IsDigit(t[0]) || ReadTree(t).Failed?
      ensures forall rest: bytes :: ReadTree(t).Failed? ==> Agrees(None, rest, ReadTree(t))
    {
      hide ReadArray, ReadObject, ReadPieces, ReadNum, ReadLiteral;
    }

    static lemma TextAgrees(t: bytes, str: Option<bytes>, rest: bytes)
      requires t != [] && t[0] == QUOTE
      requires match ReadPieces(t[1..])
               case Failed => str.None?
               case Parsed(ps, q) => PiecesOk(ps) && str == Some(PiecesValue(ps)) && rest == q
      ensures Agrees(if str.Some? then Some(Str(str.value)) else None, rest, ReadTree(t))
    {
      hide ReadPieces, PiecesOk, PiecesValue;
    }

    static lemma NumberAgrees(t: bytes, r: Option<Value>, rest: bytes)
      requires t != [] && (t[0] == MINUS || IsDigit(t[0]))
      requires match ReadNum(t)
               case Failed => r.None?
               case Parsed(n, q) => NumOk(n) && r == Some(Number(NumText(n))) && rest == q
      ensures Agrees(r, rest, ReadTree(t))
    {
      hide ReadNum, NumOk, NumText;
    }

    method ParseLiteral(literal: bytes, value: Value, ghost tree: Tree) returns (r: Option<Value>)
      requires Valid() && literal != [] && Ok(tree) && Denote(tree) == value
      modifies this`pos
      ensures Valid() && Agrees(r, Rest(), ReadLiteral(old(Rest()), literal, tree))
      ensures r.Some? ==> pos > old(pos)
    {
      var k := 0;
      while k < |literal|
        invariant k <= |literal| && Valid() && pos == old(pos) + k
        invariant forall j :: 0 <= j < k ==> literal[j] == old(Rest())[j]
      {
        if pos == |s| || s[pos] != literal[k] {
          NotPrefix(literal, old(Rest()), k);
          return None;
        }
        pos := pos + 1;
        k := k + 1;
      }
      assert literal <= old(Rest());
      r := Some(value);
    }

    /** Four hex digits; on failure the cursor is somewhere among them. */
    method ReadHex4() returns (ok: bool, cp: nat)
      requires Valid()
      modifies this`pos
      ensures Valid() && pos >= old(pos)
      ensures ok == (|old(Rest())| >= 4 && IsHex4(old(Rest())[..4]))
      ensures ok ==> cp == Hex4(old(Rest())[..4]) && pos == old(pos) + 4
    {
      cp := 0;
      var k := 0;
      ghost var t := Rest();
      while k < 4
        invariant k <= 4 && Valid() && pos == old(pos) + k
        invariant forall j :: 0 <= j < k ==> IsHex(t[j])
        invariant k == 1 ==> cp == HexDigit(t[0])
        invariant k == 0 ==> cp == 0
        invariant k == 2 ==> cp == HexDigit(t[0]) * 16 + HexDigit(t[1])
        invariant k == 3 ==> cp == HexDigit(t[0]) * 256 + HexDigit(t[1]) * 16 + HexDigit(t[2])
        invariant k == 4 ==> cp == HexDigit(t[0]) * 4096 + HexDigit(t[1]) * 256 + HexDigit(t[2]) * 16 + HexDigit(t[3])
      {
        if pos == |s| {
          return false, 0;
        }
        var h := s[pos];
        assert h == t[k];
        pos := pos + 1;
        if !IsHex(h) {
          return false, 0;
        }
        cp := cp * 16 + HexDigit(h);
        k := k + 1;
      }
      ok := true;
    }

    /** The escape \u after its first four digits have been read. */
    method FinishUnicode(high: nat) returns (cp: nat)
      requires Valid() && high < 0x10000
      modifies this`pos
      ensures Valid() && cp <= 0x10FFFF && pos >= old(pos)
      ensures if IsHighSurrogate(high) && LowFollows(old(Rest()))
              then cp == Combine(high, Hex4(old(Rest())[2..6])) && pos == old(pos) + 6
              else cp == high && pos == old(pos)
    {
      cp := high;
      if IsHighSurrogate(high) && pos < |s| && s[pos] == BACKSLASH {
        var save := pos;
        ghost var t := Rest();
        pos := pos + 1;
        if pos < |s| {
          var c := s[pos];
          pos := pos + 1;
          if c == LETTER_U {
            assert Rest() == t[2..];
            assert |t| >= 6 ==> t[2..6] == t[2..][..4];
            var ok, low := ReadHex4();
            if ok && IsLowSurrogate(low) {
              cp := 0x10000 + (high - 0xD800) * 1024 + (low - 0xDC00);
            } else {
              pos := save;
            }
          } else {
            pos := save;
          }
        } else {
          pos := save;
        }
      }
    }

    /** One piece of a string: a plain byte or an escape. */
    method ParsePiece() returns (r: Option<bytes>)
      requires Valid() && pos < |s| && s[pos] != QUOTE
      modifies this`pos
      ensures Valid() && pos > old(pos)
      ensures match ReadPiece(old(Rest()))
              case Failed => r.None?
              case Parsed(p, rest) => r == Some(PieceValue(p)) && Rest() == rest
    {
      ghost var t := Rest();
      var c := s[pos];
      pos := pos + 1;
      assert Rest() == t[1..];
      if c != BACKSLASH {
        return Some([c]);
      }
      if pos == |s| {
        return None;
      }
      var e := s[pos];
      pos := pos + 1;
      assert e == t[1] && Rest() == t[2..];
      if e == LETTER_U {
        assert |t| >= 6 ==> t[2..6] == t[2..][..4];
        var ok, high := ReadHex4();
        if !ok {
          return None;
        }
        assert Rest() == t[6..];
        var cp := FinishUnicode(high);
        return Some(Utf8(cp));
      }
      var short := ShortEscape(e);
      r := if short.Some? then Some([short.value]) else None;
    }

    method ParseString() returns (r: Option<bytes>)
      requires Valid()
      modifies this`pos
      ensures Valid()
      ensures match ReadString(old(Rest()))
              case Failed => r.None?
              case Parsed(ps, rest) => PiecesOk(ps) && r == Some(PiecesValue(ps)) && Rest() == rest
      ensures r.Some? ==> pos > old(pos)
    {
      var open := Expect(QUOTE);
      if !open {
        return None;
      }
      ghost var start := Rest();
      if ReadPieces(start).Parsed? {
        PiecesSound(start);
      }
      var out: bytes := [];
      while pos < |s|
        invariant Valid() && pos > old(pos)
        invariant PiecesLeft(start, Rest(), out)
        decreases |s| - pos
      {
        ghost var t := Rest();
        if s[pos] == QUOTE {
          pos := pos + 1;
          r := Some(out);
          assert out + [] == out;
          return;
        }
        var piece := ParsePiece();
        if piece.None? {
          return None;
        }
        PieceStep(start, t, out);
        out := out + piece.value;
      }
      r := None;
    }

    method TakeDigits()
      requires Valid()
      modifies this`pos
      ensures Valid() && pos == old(pos) + |Digits(old(Rest()))|
    {
      while pos < |s| && IsDigit(s[pos])
        invariant Valid() && pos + |Digits(Rest())| == old(pos) + |Digits(old(Rest()))|
      {
        assert Rest()[1..] == s[pos + 1..];
        pos := pos + 1;
      }
    }

    method ParseNumber() returns (r: Option<Value>)
      requires Valid() && pos < |s|
      modifies this`pos
      ensures Valid()
      ensures match ReadNum(old(Rest()))
              case Failed => r.None?
              case Parsed(n, rest) => NumOk(n) && r == Some(Number(NumText(n))) && Rest() == rest
      ensures r.Some? ==> pos > old(pos)
    {
      hide ReadNum, NumOk, NumText;
      var start := pos;
      var ok := TakeNumber();
      if !ok {
        return None;
      }
      r := Some(Number(s[start..pos]));
      TokenIsText(s, start, pos);
    }

    /** The checks of the token, one part after the other. */
    method TakeNumber() returns (ok: bool)
      requires Valid() && pos < |s|
      modifies this`pos
      ensures Valid() && pos >= old(pos)
      ensures ok == ReadNum(old(Rest())).Parsed? && (ok ==> pos > old(pos) && Rest() == ReadNum(old(Rest())).rest)
    {
      hide ReadNum, Digits, ReadFraction, ReadExponent;
      NumParts(Rest());
      if s[pos] == MINUS {
        pos := pos + 1;
      }
      if pos == |s| || !IsDigit(s[pos]) {
        return false;
      }
      TakeDigits();
      ok := TakeFraction();
      if ok {
        ok := TakeExponent();
      }
    }

    /** The optional part of a number from its decimal point on. */
    method TakeFraction() returns (ok: bool)
      requires Valid()
      modifies this`pos
      ensures Valid() && pos >= old(pos)
      ensures ok == ReadFraction(old(Rest())).Parsed? && (ok ==> Rest() == ReadFraction(old(Rest())).rest)
    {
      if pos < |s| && s[pos] == DOT {
        pos := pos + 1;
        if pos == |s| || !IsDigit(s[pos]) {
          return false;
        }
        TakeDigits();
      }
      ok := true;
    }

    /** The optional part of a number from its e on. */
    method TakeExponent() returns (ok: bool)
      requires Valid()
      modifies this`pos
      ensures Valid() && pos >= old(pos)
      ensures ok == ReadExponent(old(Rest())).Parsed? && (ok ==> Rest() == ReadExponent(old(Rest())).rest)
    {
      hide SignThen, ExponentOk, Digits, ReadExponent;
      ghost var t := Rest();
      ExponentStarts(t);
      if pos < |s| && (s[pos] == 0x65 || s[pos] == 0x45) {
        pos := pos + 1;
        TakeSign();
        DigitsStart(Rest());
        if pos == |s| || !IsDigit(s[pos]) {
          return false;
        }
        TakeDigits();
      }
      ok := true;
    }

    /** The optional sign. */
    method TakeSign()
      requires Valid()
      modifies this`pos
      ensures Valid() && pos >= old(pos) && Rest() == ReadSign(old(Rest())).1
    {
      if pos < |s| && (s[pos] == PLUS || s[pos] == MINUS) {
        pos := pos + 1;
      }
    }

    lemma ExponentStarts(t: bytes)
      ensures if t == [] || (t[0] != 0x65 && t[0] != 0x45) then ReadExponent(t).Parsed? && ReadExponent(t).rest == t
              else
                var v := ReadSign(t[1..]).1;
                (ReadExponent(t).Parsed? <==> Digits(v) != [])
                && (ReadExponent(t).Parsed? ==> ReadExponent(t).rest == v[|Digits(v)|..])
    {
      hide Digits, ReadSign;
    }

    lemma DigitsStart(t: bytes)
      ensures Digits(t) == [] <==> t == [] || !IsDigit(t[0])
    {
    }

    method ParseArray() returns (r: Option<Value>)
      requires Valid() && pos < |s| && s[pos] == LBRACKET
      modifies this`pos
      ensures Valid() && Agrees(r, Rest(), ReadArray(old(Rest())[1..]))
      ensures r.Some? ==> pos > old(pos)
      decreases |s| - pos - 1, 2
    {
      hide ReadArray, ReadTree, ReadElems, ReadElem, Denote, DenoteElems, DenoteElem, Ok, ElemsOk, ElemOk, ElemsLeft,
        Gap;
      var open := Expect(LBRACKET);
      ghost var start := Rest();
      ghost var at := start;
      ArrayParts(start);
      SkipWs();
      var empty := Expect(RBRACKET);
      if empty {
        return Some(Array([]));
      }
      ElemsStart(start);
      GapOnce(start);
      var items: seq<Value> := [];
      while true
        invariant Valid() && pos > old(pos)
        invariant SkipGap(Rest()) == SkipGap(at) && ElemsLeft(start, at, items)
        decreases |s| - pos
      {
        SkipWs();
        GapOnce(at);
        var v := ParseValue();
        ElemParts(at);
        ElemStep(start, at, items);
        if v.None? {
          return None;
        }
        items := items + [v.value];
        SkipWs();
        var close := Expect(RBRACKET);
        if close {
          return Some(Array(items));
        }
        var comma := Expect(COMMA);
        if !comma {
          return None;
        }
        at := Rest();
      }
    }

    lemma ArrayParts(t: bytes)
      ensures var u := SkipGap(t);
              if u != [] && u[0] == RBRACKET then
                ReadArray(t).Parsed? && ReadArray(t).rest == u[1..] && Ok(ReadArray(t).value)
                && Denote(ReadArray(t).value) == Array([])
              else
                match ReadElems(t)
                case Failed => ReadArray(t).Failed?
                case Parsed(es, rest) =>
                  ReadArray(t).Parsed? && ReadArray(t).rest == rest
                  && (ElemsOk(es) ==> Ok(ReadArray(t).value) && Denote(ReadArray(t).value) == Array(DenoteElems(es)))
    {
    }

    /** What one element is made of. */
    lemma ElemParts(t: bytes)
      ensures match ReadTree(SkipGap(t))
              case Failed => ReadElem(t).Failed?
              case Parsed(tree, u) =>
                ReadElem(t).Parsed? && ReadElem(t).rest == SkipGap(u)
                && (ElemOk(ReadElem(t).value) ==> Ok(tree) && DenoteElem(ReadElem(t).value) == Denote(tree))
    {
    }

    method ParseObject() returns (r: Option<Value>)
      requires Valid() && pos < |s| && s[pos] == LBRACE
      modifies this`pos
      ensures Valid() && Agrees(r, Rest(), ReadObject(old(Rest())[1..]))
      ensures r.Some? ==> pos > old(pos)
      decreases |s| - pos - 1, 2
    {
      hide ReadObject, ReadTree, ReadMembers, ReadMember, Denote, DenoteMembers, DenoteMember, Ok, MembersOk, MemberOk,
        MembersLeft, Gap, SkipGap, ReadString, PiecesOk, PiecesValue;
      var open := Expect(LBRACE);
      ghost var start := Rest();
      ghost var at := start;
      ObjectParts(start);
      SkipWs();
      var empty := Expect(RBRACE);
      if empty {
        return Some(Object([]));
      }
      MembersStart(start);
      GapOnce(start);
      var fields: seq<Field> := [];
      while true
        invariant Valid() && pos > old(pos)
        invariant SkipGap(Rest()) == SkipGap(at) && MembersLeft(start, at, fields)
        decreases |s| - pos
      {
        SkipWs();
        MemberParts(at);
        MemberStep(start, at, fields);
        var key := ParseString();
        if key.None? {
          return None;
        }
        SkipWs();
        var colon := Expect(COLON);
        if !colon {
          return None;
        }
        ghost var v := Rest();
        SkipWs();
        GapOnce(v);
        var value := ParseValue();
        if value.None? {
          return None;
        }
        fields := fields + [Field(key.value, value.value)];
        SkipWs();
        var close := Expect(RBRACE);
        if close {
          return Some(Object(fields));
        }
        var comma := Expect(COMMA);
        if !comma {
          return None;
        }
        at := Rest();
      }
    }

    lemma ObjectParts(t: bytes)
      ensures var u := SkipGap(t);
              if u != [] && u[0] == RBRACE then
                ReadObject(t).Parsed? && ReadObject(t).rest == u[1..] && Ok(ReadObject(t).value)
                && Denote(ReadObject(t).value) == Object([])
              else
                match ReadMembers(t)
                case Failed => ReadObject(t).Failed?
                case Parsed(ms, rest) =>
                  ReadObject(t).Parsed? && ReadObject(t).rest == rest
                  && (MembersOk(ms) ==>
                      Ok(ReadObject(t).value) && Denote(ReadObject(t).value) == Object(DenoteMembers(ms)))
    {
    }

    /** What one member is made of. */
    lemma MemberParts(t: bytes)
      ensures match ReadString(SkipGap(t))
              case Failed => ReadMember(t).Failed?
              case Parsed(key, u) =>
                var v := SkipGap(u);
                if v == [] || v[0] != COLON then ReadMember(t).Failed?
                else
                  match ReadTree(SkipGap(v[1..]))
                  case Failed => ReadMember(t).Failed?
                  case Parsed(tree, w) =>
                    ReadMember(t).Parsed? && ReadMember(t).rest == SkipGap(w)
                    && (MemberOk(ReadMember(t).value) ==>
                          PiecesOk(key) && Ok(tree)
                          && DenoteMember(ReadMember(t).value) == Field(PiecesValue(key), Denote(tree)))
    {
    }
  }

  // ---------------------------------------------------------------------------
  // What the loops keep: the output so far and what is still to be read make up the whole
  // ---------------------------------------------------------------------------

  ghost predicate PiecesLeft(start: bytes, at: bytes, out: bytes) {
    match ReadPieces(start)
    case Failed => ReadPieces(at).Failed?
    case Parsed(ps, rest) =>
      PiecesOk(ps) && ReadPieces(at).Parsed? && ReadPieces(at).rest == rest && PiecesOk(ReadPieces(at).value)
      && out + PiecesValue(ReadPieces(at).value) == PiecesValue(ps)
  }

  lemma PieceStep(start: bytes, at: bytes, out: bytes)
    requires PiecesLeft(start, at, out) && at != [] && at[0] != QUOTE && ReadPiece(at).Parsed?
    ensures PiecesLeft(start, ReadPiece(at).rest, out + PieceValue(ReadPiece(at).value))
  {
    var Parsed(p, u) := ReadPiece(at);
    if ReadPieces(u).Parsed? {
      var ps := ReadPieces(u).value;
      assert ReadPieces(at).value == [p] + ps && ([p] + ps)[1..] == ps;
      Assoc(out, PieceValue(p), PiecesValue(ps));
    }
  }

  ghost predicate ElemsLeft(start: bytes, at: bytes, items: seq<Value>) {
    match ReadElems(start)
    case Failed => ReadElems(at).Failed?
    case Parsed(es, rest) =>
      ElemsOk(es) && ReadElems(at).Parsed? && ReadElems(at).rest == rest && ElemsOk(ReadElems(at).value)
      && items + DenoteElems(ReadElems(at).value) == DenoteElems(es)
  }

  lemma ElemsStart(start: bytes)
    ensures ElemsLeft(start, start, [])
  {
    if ReadElems(start).Parsed? {
      ElemsSound(start);
    }
  }

  lemma OneMore<T>(front: seq<T>, x: T, rest: seq<T>)
    ensures (front + [x]) + rest == front + ([x] + rest)
  {
  }

  /** The element at `at` decides whether the loop goes on. */
  lemma ElemStep(start: bytes, at: bytes, items: seq<Value>)
    requires ElemsLeft(start, at, items)
    ensures match ReadElem(at)
            case Failed => ReadElems(start).Failed?
            case Parsed(e, u) =>
              ElemOk(e) &&
              if u != [] && u[0] == RBRACKET then
                ReadElems(start).Parsed? && ReadElems(start).rest == u[1..] && ElemsOk(ReadElems(start).value)
                && DenoteElems(ReadElems(start).value) == items + [DenoteElem(e)]
              else if u != [] && u[0] == COMMA then ElemsLeft(start, u[1..], items + [DenoteElem(e)])
              else ReadElems(start).Failed?
  {
    hide ReadTree, ReadElem, TreeThen, Denote, Ok, ElemThen, ElemOk, DenoteElem;
    if ReadElem(at).Parsed? {
      var Parsed(e, u) := ReadElem(at);
      ElemSound(at);
      if u != [] && u[0] == COMMA && ReadElems(u[1..]).Parsed? {
        var es := ReadElems(u[1..]).value;
        ElemsSound(u[1..]);
        assert ReadElems(at).value == MoreElems(e, es);
        assert DenoteElems(MoreElems(e, es)) == [DenoteElem(e)] + DenoteElems(es);
        OneMore(items, DenoteElem(e), DenoteElems(es));
      }
    }
  }

  ghost predicate MembersLeft(start: bytes, at: bytes, fields: seq<Field>) {
    match ReadMembers(start)
    case Failed => ReadMembers(at).Failed?
    case Parsed(ms, rest) =>
      MembersOk(ms) && ReadMembers(at).Parsed? && ReadMembers(at).rest == rest && MembersOk(ReadMembers(at).value)
      && fields + DenoteMembers(ReadMembers(at).value) == DenoteMembers(ms)
  }

  lemma MembersStart(start: bytes)
    ensures MembersLeft(start, start, [])
  {
    if ReadMembers(start).Parsed? {
      MembersSound(start);
    }
  }

  /** The member at `at` decides whether the loop goes on. */
  lemma MemberStep(start: bytes, at: bytes, fields: seq<Field>)
    requires MembersLeft(start, at, fields)
    ensures match ReadMember(at)
            case Failed => ReadMembers(start).Failed?
            case Parsed(m, u) =>
              MemberOk(m) &&
              if u != [] && u[0] == RBRACE then
                ReadMembers(start).Parsed? && ReadMembers(start).rest == u[1..] && MembersOk(ReadMembers(start).value)
                && DenoteMembers(ReadMembers(start).value) == fields + [DenoteMember(m)]
              else if u != [] && u[0] == COMMA then MembersLeft(start, u[1..], fields + [DenoteMember(m)])
              else ReadMembers(start).Failed?
  {
    hide ReadTree, ReadMember, TreeThen, Denote, Ok, MemberThen, MemberOk, DenoteMember;
    if ReadMember(at).Parsed? {
      var Parsed(m, u) := ReadMember(at);
      MemberSound(at);
      if u != [] && u[0] == COMMA && ReadMembers(u[1..]).Parsed? {
        var ms := ReadMembers(u[1..]).value;
        MembersSound(u[1..]);
        assert ReadMembers(at).value == MoreMembers(m, ms);
        assert DenoteMembers(MoreMembers(m, ms)) == [DenoteMember(m)] + DenoteMembers(ms);
        OneMore(fields, DenoteMember(m), DenoteMembers(ms));
      }
    }
  }

  lemma GapOnce(t: bytes)
    ensures SkipGap(SkipGap(t)) == SkipGap(t)
  {
  }

  lemma NotPrefix(a: bytes, b: bytes, k: nat)
    requires k < |a| && (k >= |b| || a[k] != b[k])
    ensures !(a <= b)
  {
  }

  /** How a number is put together. */
  lemma NumParts(t: bytes)
    ensures var u := if t != [] && t[0] == MINUS then t[1..] else t;
            var v := u[|Digits(u)|..];
            if u == [] || !IsDigit(u[0]) then ReadNum(t).Failed?
            else
              match ReadFraction(v)
              case Failed => ReadNum(t).Failed?
              case Parsed(_, w) =>
                match ReadExponent(w)
                case Failed => ReadNum(t).Failed?
                case Parsed(_, rest) => ReadNum(t).Parsed? && ReadNum(t).rest == rest
  {
  }

  /** The token cut out of the input is the number's text. */
  lemma TokenIsText(s: bytes, start: nat, end: nat)
    requires start <= end <= |s| && ReadNum(s[start..]).Parsed? && ReadNum(s[start..]).rest == s[end..]
    ensures NumOk(ReadNum(s[start..]).value) && NumText(ReadNum(s[start..]).value) == s[start..end]
  {
    hide ReadNum, NumOk, NumText, NumThen;
    var n := ReadNum(s[start..]).value;
    NumSound(s[start..]);
    NumInFront(n, s[end..]);
    assert s[start..] == s[start..end] + s[end..];
    SameFront(NumText(n), s[start..end], s[end..]);
  }

  lemma SameFront(a: bytes, b: bytes, t: bytes)
    requires a + t == b + t
    ensures a == b
  {
    assert (a + t)[..|a|] == a && (b + t)[..|b|] == b;
  }
}
