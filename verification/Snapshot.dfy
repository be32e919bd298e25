/** lib/dataservice/dataservice.cpp, applyDataJson: the newest item of an /api/data document becomes the snapshot, and
    its relay path is split into hops. strtod is a function of the token.
  */
module Snapshot {
  import opened Bytes
  import opened JsonSyntax
  import JsonReader
  import JsonParser
  import R = Relay

  type Strtod = bytes -> real

  const KEY_ITEMS: bytes := [0x69, 0x74, 0x65, 0x6D, 0x73]
  const KEY_TIME: bytes := [0x74, 0x69, 0x6D, 0x65]
  const KEY_PH: bytes := [0x70, 0x68]
  const KEY_LIGHT: bytes := [0x6C, 0x69, 0x67, 0x68, 0x74]
  const KEY_MOISTURE: bytes := [0x6D, 0x6F, 0x69, 0x73, 0x74, 0x75, 0x72, 0x65]
  const KEY_NODE_ID: bytes := [0x6E, 0x6F, 0x64, 0x65, 0x5F, 0x69, 0x64]
  const KEY_PATH: bytes := [0x70, 0x61, 0x74, 0x68]

  // ---------------------------------------------------------------------------
  // The hop list
  // ---------------------------------------------------------------------------

  /** Where the first '>' is, or the end. */
  function FirstGt(s: bytes): (k: nat)
    ensures k <= |s| && R.GT !in s[..k] && (k < |s| ==> s[k] == R.GT)
  {
    if s == [] || s[0] == R.GT then 0 else 1 + FirstGt(s[1..])
  }

  /** The non-empty parts between the '>' characters. */
  function Split(s: bytes): seq<bytes> {
    var k := FirstGt(s);
    (if k > 0 then [s[..k]] else []) + (if k == |s| then [] else Split(s[k + 1..]))
  }

  function Texts(hops: seq<R.Node>): seq<bytes> {
    if hops == [] then [] else [R.HopText(hops[0])] + Texts(hops[1..])
  }

  ghost predicate NoSeparators(hops: seq<R.Node>) {
    forall i :: 0 <= i < |hops| ==> R.GT !in hops[i].nodeId
  }

  lemma {:induction false} FirstGtOf(part: bytes, rest: bytes)
    requires R.GT !in part
    ensures FirstGt(part + [R.GT] + rest) == |part| && FirstGt(part) == |part|
  {
    if part == [] {
    } else {
      assert part[0] != R.GT;
      assert (part + [R.GT] + rest)[1..] == part[1..] + [R.GT] + rest;
      FirstGtOf(part[1..], rest);
    }
  }

  /** What splitting at '>' means: a text without it is its own only part, an empty one has none, and a '>' separates.
      */
  lemma SplitLaws(part: bytes, rest: bytes)
    requires 0x3E !in part
    ensures Split([]) == [] && (part != [] ==> Split(part) == [part])
    ensures Split(part + [0x3E] + rest) == Split(part) + Split(rest)
  {
    hide FirstGt;
    FirstGtOf(part, rest);
    FirstGtOf([], []);
    var s := part + [R.GT] + rest;
    assert s[..|part|] == part && s[|part| + 1..] == rest && part[..|part|] == part;
    assert [part] + [] == [part];
  }

  /** Splitting the hops written in full gives the hops. */
  lemma {:induction false} SplitRecoversTheHops(hops: seq<R.Node>)
    requires hops != [] && NoSeparators(hops)
    ensures Split(R.FullPath(hops)) == Texts(hops)
  {
    var part := R.HopText(hops[0]);
    assert R.GT !in part;
    if |hops| == 1 {
      FirstGtOf(part, []);
      assert part[..|part|] == part;
      assert Texts(hops) == [part] + Texts(hops[1..]);
    } else {
      var rest := R.FullPath(hops[1..]);
      FirstGtOf(part, rest);
      var s := part + [R.GT] + rest;
      assert s[..|part|] == part && s[|part| + 1..] == rest;
      SplitRecoversTheHops(hops[1..]);
    }
  }

  /** How many characters are not '>'. */
  function Letters(s: bytes): nat {
    if s == [] then 0 else (if s[0] == R.GT then 0 else 1) + Letters(s[1..])
  }

  function TotalLength(parts: seq<bytes>): nat {
    if parts == [] then 0 else |parts[0]| + TotalLength(parts[1..])
  }

  lemma {:induction false} LettersOfSum(a: bytes, b: bytes)
    ensures Letters(a + b) == Letters(a) + Letters(b)
  {
    if a == [] {
      assert a + b == b;
    } else {
      assert (a + b)[1..] == a[1..] + b;
      LettersOfSum(a[1..], b);
    }
  }

  lemma {:induction false} LettersOnly(s: bytes)
    requires R.GT !in s
    ensures Letters(s) == |s|
  {
    if s != [] {
      assert s[0] != R.GT;
      LettersOnly(s[1..]);
    }
  }

  lemma {:induction false} SplitKeepsTheLetters(s: bytes)
    ensures TotalLength(Split(s)) == Letters(s)
    decreases |s|
  {
    var k := FirstGt(s);
    LettersOnly(s[..k]);
    var first := if k > 0 then [s[..k]] else [];
    if k == |s| {
      assert s[..k] == s;
      assert first + [] == first;
    } else {
      var rest := s[k + 1..];
      assert s == s[..k] + ([R.GT] + rest);
      LettersOfSum(s[..k], [R.GT] + rest);
      assert ([R.GT] + rest)[1..] == rest;
      SplitKeepsTheLetters(rest);
      assert k > 0 ==> (first + Split(rest))[1..] == Split(rest);
      assert k == 0 ==> first + Split(rest) == Split(rest);
    }
  }

  lemma {:induction false} FullPathEndsInALetter(hops: seq<R.Node>)
    requires hops != [] && NoSeparators(hops)
    ensures R.FullPath(hops) != [] && R.FullPath(hops)[|R.FullPath(hops)| - 1] != R.GT
  {
    if |hops| > 1 {
      FullPathEndsInALetter(hops[1..]);
    }
  }

  /** The hop list survives the 32-octet path field if and only if it fits. */
  lemma HopsSurviveIfTheyFit(hops: seq<R.Node>)
    requires hops != [] && NoSeparators(hops)
    ensures Split(R.Cut(R.FullPath(hops), R.PATH_LEN)) == Texts(hops) <==> |R.FullPath(hops)| <= R.PATH_LEN
  {
    hide Split, R.FullPath, Letters;
    var full := R.FullPath(hops);
    SplitRecoversTheHops(hops);
    if |full| <= R.PATH_LEN {
      assert R.Cut(full, R.PATH_LEN) == full;
    } else {
      var kept, lost := full[..R.PATH_LEN], full[R.PATH_LEN..];
      SplitKeepsTheLetters(full);
      SplitKeepsTheLetters(kept);
      assert full == kept + lost;
      LettersOfSum(kept, lost);
      FullPathEndsInALetter(hops);
      LastLetterCounts(lost);
    }
  }

  lemma LastLetterCounts(s: bytes)
    requires s != [] && s[|s| - 1] != R.GT
    ensures Letters(s) > 0
  {
  }

  /** From the sensor node to the window: the hop list of a reading that came through any chain of slave relays is
      exactly the relays in order, newest first, if and only if the names fit the field. */
  lemma RelayedHopsAreRecovered(p: bytes, first: R.Node, relays: seq<R.Node>, crc: R.Crc)
    requires |p| >= R.MIN_TELEMETRY && R.Verified(p, crc) && R.PathOf(p) == R.Cut(R.HopText(first), R.PATH_LEN)
    requires R.ActiveSlaves(relays) && NoSeparators(relays + [first])
    ensures Split(R.PathOf(R.Relayed(p, relays, crc))) == Texts(relays + [first])
            <==> |R.FullPath(relays + [first])| <= R.PATH_LEN
  {
    R.RelaysKeepTheReading(p, first, relays, crc);
    HopsSurviveIfTheyFit(relays + [first]);
  }

  // ---------------------------------------------------------------------------
  // The document
  // ---------------------------------------------------------------------------

  /** Value::find: the first member with the key. */
  function Find(fields: seq<Field>, key: bytes): Option<Value> {
    if fields == [] then None
    else if fields[0].key == key then Some(fields[0].value)
    else Find(fields[1..], key)
  }

  function NumberOf(fields: seq<Field>, key: bytes, strtod: Strtod): real {
    match Find(fields, key)
    case Some(Number(token)) =>
      strtod(token)
    case _ => 0.0
  }

  function StringOf(fields: seq<Field>, key: bytes): bytes {
    match Find(fields, key)
    case Some(Str(s)) =>
      s
    case _ => []
  }

  // ---------------------------------------------------------------------------
  // What members a document has
  // ---------------------------------------------------------------------------

  /** The first member of this name has this value. */
  ghost predicate HasMember(fields: seq<Field>, key: string, v: Value)
    requires forall i :: 0 <= i < |key| ==> key[i] < 128 as char
  {
    exists i ::
      0 <= i < |fields| && fields[i] == Field(Ascii(key), v) && forall j :: 0 <= j < i ==> fields[j].key != Ascii(key)
  }

  /** The number under this name; 0 when there is none. */
  ghost predicate HasNumber(fields: seq<Field>, key: string, strtod: Strtod, x: real)
    requires forall i :: 0 <= i < |key| ==> key[i] < 128 as char
  {
    (exists token :: HasMember(fields, key, Number(token)) && strtod(token) == x)
    || (x == 0.0 && forall token :: !HasMember(fields, key, Number(token)))
  }

  /** The text under this name; empty when there is none. */
  ghost predicate HasText(fields: seq<Field>, key: string, s: bytes)
    requires forall i :: 0 <= i < |key| ==> key[i] < 128 as char
  {
    HasMember(fields, key, Str(s)) || (s == [] && forall u :: !HasMember(fields, key, Str(u)))
  }

  ghost predicate HasItems(root: Option<Value>, items: seq<Value>) {
    root.Some? && root.value.Object? && HasMember(root.value.fields, "items", Array(items))
  }

  ghost predicate HasTime(item: Value, strtod: Strtod, time: real) {
    item.Object? && HasNumber(item.fields, "time", strtod, time)
  }

  /** The item of this time is the newest: none is later, and none behind it as late. */
  ghost predicate IsLatest(items: seq<Value>, strtod: Strtod, i: nat, time: real) {
    i < |items| && HasTime(items[i], strtod, time) && time >= -1.0
    && forall j, t :: 0 <= j < |items| && HasTime(items[j], strtod, t) ==> t <= time && (j > i ==> t < time)
  }

  lemma {:induction false} FindIs(fields: seq<Field>, key: bytes, v: Value)
    ensures Find(fields, key) == Some(v) <==>
              exists i ::
                0 <= i < |fields| && fields[i] == Field(key, v) && forall j :: 0 <= j < i ==> fields[j].key != key
  {
    if fields != [] && fields[0].key != key {
      var rest := fields[1..];
      FindIs(rest, key, v);
      if i :| 0 <= i < |rest| && rest[i] == Field(key, v) && forall j :: 0 <= j < i ==> rest[j].key != key {
        assert fields[i + 1] == Field(key, v);
        assert forall j :: 0 <= j < i + 1 ==> fields[j].key != key by {
          assert forall j :: 1 <= j < i + 1 ==> fields[j] == rest[j - 1];
        }
      }
      if i :| 0 <= i < |fields| && fields[i] == Field(key, v) && forall j :: 0 <= j < i ==> fields[j].key != key {
        assert rest[i - 1] == Field(key, v) && forall j :: 0 <= j < i - 1 ==> rest[j] == fields[j + 1];
      }
    }
  }

  lemma MemberIs(fields: seq<Field>, key: string)
    requires forall i :: 0 <= i < |key| ==> key[i] < 128 as char
    ensures forall v :: HasMember(fields, key, v) <==> Find(fields, Ascii(key)) == Some(v)
  {
    hide Find, Ascii;
    forall v
      ensures HasMember(fields, key, v) <==> Find(fields, Ascii(key)) == Some(v)
    {
      FindIs(fields, Ascii(key), v);
    }
  }

  lemma NumberIs(fields: seq<Field>, key: string, strtod: Strtod)
    requires forall i :: 0 <= i < |key| ==> key[i] < 128 as char
    ensures forall x :: HasNumber(fields, key, strtod, x) <==> x == NumberOf(fields, Ascii(key), strtod)
  {
    hide Find, Ascii, HasMember;
    MemberIs(fields, key);
  }

  lemma TextIs(fields: seq<Field>, key: string)
    requires forall i :: 0 <= i < |key| ==> key[i] < 128 as char
    ensures forall s :: HasText(fields, key, s) <==> s == StringOf(fields, Ascii(key))
  {
    hide Find, Ascii, HasMember;
    MemberIs(fields, key);
  }

  lemma KeysAre()
    ensures Ascii("items") == KEY_ITEMS && Ascii("time") == KEY_TIME && Ascii("ph") == KEY_PH
    ensures Ascii("light") == KEY_LIGHT && Ascii("moisture") == KEY_MOISTURE
    ensures Ascii("node_id") == KEY_NODE_ID && Ascii("path") == KEY_PATH
  {
  }

  function ItemTime(v: Value, strtod: Strtod): real
    requires v.Object?
  {
    NumberOf(v.fields, KEY_TIME, strtod)
  }

  /** An item that can be shown: an object whose time (0 when it has none) is at least -1. */
  predicate Shown(v: Value, strtod: Strtod) {
    v.Object? && ItemTime(v, strtod) >= -1.0
  }

  /** The item with the largest time, the last one of those. */
  ghost predicate IsNewest(items: seq<Value>, strtod: Strtod, i: nat) {
    i < |items| && Shown(items[i], strtod)
    && forall j :: 0 <= j < |items| && Shown(items[j], strtod) ==>
         ItemTime(items[j], strtod) <= ItemTime(items[i], strtod)
         && (j > i ==> ItemTime(items[j], strtod) < ItemTime(items[i], strtod))
  }

  method Newest(items: seq<Value>, strtod: Strtod) returns (best: Option<nat>)
    ensures best.Some? ==> IsNewest(items, strtod, best.value)
    ensures best.None? <==> forall j :: 0 <= j < |items| ==> !Shown(items[j], strtod)
  {
    best := None;
    var bestTime := -1.0;
    for i := 0 to |items|
      invariant best.None? ==> bestTime == -1.0 && forall j :: 0 <= j < i ==> !Shown(items[j], strtod)
      invariant best.Some? ==> best.value < i && Shown(items[best.value], strtod)
                               && bestTime == ItemTime(items[best.value], strtod)
                               && forall j :: 0 <= j < i && Shown(items[j], strtod) ==>
                                    ItemTime(items[j], strtod) <= bestTime
                                    && (j > best.value ==> ItemTime(items[j], strtod) < bestTime)
    {
      if items[i].Object? {
        var time := ItemTime(items[i], strtod);
        if time >= bestTime {
          bestTime, best := time, Some(i);
        }
      }
    }
  }

  /** There is at most one newest item. */
  lemma NewestIsUnique(items: seq<Value>, strtod: Strtod, i: nat, j: nat)
    requires IsNewest(items, strtod, i) && IsNewest(items, strtod, j)
    ensures i == j
  {
  }

  function ItemsOf(root: Option<Value>): Option<seq<Value>> {
    match root
    case Some(Object(fields)) =>
      (match Find(fields, KEY_ITEMS)
       case Some(Array(items)) =>
         Some(items)
       case _ => None)
    case _ => None
  }

  lemma ItemsAre(root: Option<Value>)
    ensures forall items :: HasItems(root, items) <==> ItemsOf(root) == Some(items)
  {
    hide Find, Ascii, HasMember;
    KeysAre();
    if root.Some? && root.value.Object? {
      MemberIs(root.value.fields, "items");
    }
  }

  lemma TimeIs(item: Value, strtod: Strtod)
    ensures forall time :: HasTime(item, strtod, time) <==> item.Object? && time == ItemTime(item, strtod)
  {
    hide NumberOf, Ascii, HasNumber;
    KeysAre();
    if item.Object? {
      NumberIs(item.fields, "time", strtod);
    }
  }

  lemma LatestIs(items: seq<Value>, strtod: Strtod, i: nat)
    ensures IsNewest(items, strtod, i) ==> IsLatest(items, strtod, i, ItemTime(items[i], strtod))
  {
    hide ItemTime, HasTime;
    if IsNewest(items, strtod, i) {
      forall j | 0 <= j < |items|
        ensures forall time :: HasTime(items[j], strtod, time) <==>
                  items[j].Object? && time == ItemTime(items[j], strtod)
      {
        TimeIs(items[j], strtod);
      }
    }
  }

  lemma NothingToShow(items: seq<Value>, strtod: Strtod)
    requires forall j :: 0 <= j < |items| ==> !Shown(items[j], strtod)
    ensures forall j, time :: 0 <= j < |items| && HasTime(items[j], strtod, time) ==> time < -1.0
  {
    hide ItemTime, HasTime;
    forall j | 0 <= j < |items|
      ensures forall time :: HasTime(items[j], strtod, time) ==> time < -1.0
    {
      TimeIs(items[j], strtod);
      assert !Shown(items[j], strtod);
    }
  }

  lemma SplitStep(path: bytes, start: nat, end: nat)
    requires start <= end <= |path| && end - start == FirstGt(path[start..])
    ensures Split(path[start..])
            == (if end > start then [path[start..end]] else []) + (if end == |path| then [] else Split(path[end + 1..]))
  {
    var rest := path[start..];
    assert rest[..end - start] == path[start..end];
    if end < |path| {
      assert rest[end - start + 1..] == path[end + 1..];
    }
  }

  /** What the loop still has to add. */
  function ToCome(path: bytes, start: nat, more: bool): seq<bytes>
    requires start <= |path|
  {
    if more then Split(path[start..]) else []
  }

  lemma PartStep(path: bytes, start: nat, end: nat, parts: seq<bytes>)
    requires start <= end <= |path| && end - start == FirstGt(path[start..])
    ensures var next := if end > start then parts + [path[start..end]] else parts;
            parts + ToCome(path, start, true)
            == next + if end == |path| then ToCome(path, start, false) else ToCome(path, end + 1, true)
  {
    hide Split, FirstGt;
    SplitStep(path, start, end);
    var tail := if end == |path| then [] else Split(path[end + 1..]);
    if end > start {
      Associative(parts, [path[start..end]], tail);
    } else {
      assert [] + tail == tail;
    }
  }

  lemma Associative(a: seq<bytes>, b: seq<bytes>, c: seq<bytes>)
    ensures a + (b + c) == (a + b) + c
  {
  }

  method SplitPath(path: bytes) returns (parts: seq<bytes>)
    ensures parts == Split(path)
  {
    hide ToCome, FirstGt;
    parts := [];
    var start, more := 0, true;
    assert path[0..] == path;
    assert Split(path) == parts + ToCome(path, 0, true) by { ToComeIs(path, 0); }
    while more && start <= |path|
      invariant start <= |path|
      invariant Split(path) == parts + ToCome(path, start, more)
      decreases if more then |path| - start + 1 else 0
    {
      hide Split;
      var end := FindGt(path, start);
      PartStep(path, start, end, parts);
      if end > start {
        parts := parts + [path[start..end]];
      }
      if end == |path| {
        more := false;
      } else {
        start := end + 1;
      }
    }
    ToComeIs(path, start);
  }

  lemma ToComeIs(path: bytes, start: nat)
    requires start <= |path|
    ensures ToCome(path, start, true) == Split(path[start..]) && ToCome(path, start, false) == []
  {
  }

  /** std::string::find, with the size for npos. */
  method FindGt(path: bytes, start: nat) returns (end: nat)
    requires start <= |path|
    ensures start <= end <= |path| && end - start == FirstGt(path[start..])
  {
    end := start;
    while end < |path| && path[end] != R.GT
      invariant start <= end <= |path| && FirstGt(path[start..]) == end - start + FirstGt(path[end..])
    {
      assert path[end..][1..] == path[end + 1..];
      end := end + 1;
    }
  }

  class DataService {
    var ph: real
    var illumination: real
    var soilMoisture: real
    var lastUpdateTime: int
    var nodeId: bytes
    var pathList: seq<bytes>

    /** What the snapshot shows of an item; the name stays when the item has none. */
    ghost predicate Shows(fields: seq<Field>, strtod: Strtod, nameBefore: bytes)
      reads this
    {
      ph == NumberOf(fields, KEY_PH, strtod) && illumination == NumberOf(fields, KEY_LIGHT, strtod)
      && soilMoisture == NumberOf(fields, KEY_MOISTURE, strtod)
      && lastUpdateTime == Truncated(NumberOf(fields, KEY_TIME, strtod))
      && nodeId == (if StringOf(fields, KEY_NODE_ID) != [] then StringOf(fields, KEY_NODE_ID) else nameBefore)
      && pathList == Split(StringOf(fields, KEY_PATH))
    }

    /** The fields, member by member of the item; its path is cut at the separators. */
    ghost predicate Displays(fields: seq<Field>, strtod: Strtod, time: real, nameBefore: bytes)
      reads this
    {
      HasNumber(fields, "ph", strtod, ph) && HasNumber(fields, "light", strtod, illumination)
      && HasNumber(fields, "moisture", strtod, soilMoisture)
      && (time >= 0.0 ==> lastUpdateTime as real <= time < lastUpdateTime as real + 1.0)
      && (time < 0.0 ==> lastUpdateTime as real - 1.0 < time <= lastUpdateTime as real)
      && (HasText(fields, "node_id", nodeId) || (HasText(fields, "node_id", []) && nodeId == nameBefore))
      && exists path :: HasText(fields, "path", path) && pathList == Split(path)
    }

    lemma ShowsIsDisplays(fields: seq<Field>, strtod: Strtod, nameBefore: bytes)
      requires Shows(fields, strtod, nameBefore)
      ensures Displays(fields, strtod, NumberOf(fields, KEY_TIME, strtod), nameBefore)
    {
      hide NumberOf, StringOf, HasNumber, HasText, Ascii, Split;
      KeysAre();
      NumberIs(fields, "ph", strtod);
      NumberIs(fields, "light", strtod);
      NumberIs(fields, "moisture", strtod);
      TextIs(fields, "node_id");
      TextIs(fields, "path");
    }

    method ApplyDataJson(json: bytes, strtod: Strtod) returns (ok: bool)
      modifies this
      ensures ok <==> var items := ItemsOf(JsonReader.ParsedValue(json));
                      items.Some? && exists j :: 0 <= j < |items.value| && Shown(items.value[j], strtod)
      ensures ok ==> var items := ItemsOf(JsonReader.ParsedValue(json)).value;
                     exists best: nat :: IsNewest(items, strtod, best) && Shows(items[best].fields, strtod, old(nodeId))
      ensures !ok ==> unchanged(this)
      ensures ok <==> exists items: seq<Value>, j: nat, time ::
                HasItems(JsonReader.ParsedValue(json), items) && j < |items|
                && HasTime(items[j], strtod, time) && time >= -1.0
      ensures ok ==> exists items: seq<Value>, i: nat, time ::
                HasItems(JsonReader.ParsedValue(json), items) && IsLatest(items, strtod, i, time)
                && Displays(items[i].fields, strtod, time, old(nodeId))
    {
      hide ItemsOf, Split, NumberOf, StringOf, JsonReader.ParsedValue;
      var parser := new JsonParser.Parser(json);
      var root := parser.Parse();
      var found := ItemsOf(root);
      ItemsAre(root);
      if found.None? {
        return false;
      }
      var best := Newest(found.value, strtod);
      if best.None? {
        NothingToShow(found.value, strtod);
        return false;
      }
      assert IsNewest(found.value, strtod, best.value);
      LatestIs(found.value, strtod, best.value);
      SetFrom(found.value[best.value].fields, strtod);
      ShowsIsDisplays(found.value[best.value].fields, strtod, old(nodeId));
      ok := true;
    }

    method SetFrom(fields: seq<Field>, strtod: Strtod)
      modifies this
      ensures Shows(fields, strtod, old(nodeId))
    {
      hide Split, Find;
      ph := NumberOf(fields, KEY_PH, strtod);
      illumination := NumberOf(fields, KEY_LIGHT, strtod);
      soilMoisture := NumberOf(fields, KEY_MOISTURE, strtod);
      lastUpdateTime := Truncated(NumberOf(fields, KEY_TIME, strtod));
      var name := StringOf(fields, KEY_NODE_ID);
      if name != [] {
        nodeId := name;
      }
      pathList := SplitPath(StringOf(fields, KEY_PATH));
    }
  }

  /** A cast of a double to an integer type. */
  function Truncated(x: real): int {
    if x >= 0.0 then x.Floor else -((-x).Floor)
  }
}
