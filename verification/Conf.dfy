/** The configuration. */
module Conf {
  import opened Bytes

  // The configuration store: entries ordered by key, with a binary form that can be written out,
  // read back, and read back in part.
  //
  // The balanced tree is a sorted sequence here, and file names and fonts are those of the Windows
  // front end.

  datatype Ty = NoType | IntType | StrType | FileType | FontType

  /** For each primary key the types of its subkey and of its value. */
  type Schema = seq<(Ty, Ty)>

  datatype SubKey = NoSub | IntSub(i: int) | StrSub(s: seq<Byte>)

  datatype Key = Key(primary: nat, sub: SubKey)

  datatype Font = Font(name: seq<Byte>, bold: int, height: int, charset: int)

  datatype Value = NoValue | IntVal(i: int) | StrVal(s: seq<Byte>) | FileVal(path: seq<Byte>) | FontVal(font: Font)

  datatype Entry = Entry(key: Key, value: Value)

  // ------------------------------------------------------------------
  // The order of keys

  /** `strcmp(a, b) < 0` */
  predicate StrLess(a: seq<Byte>, b: seq<Byte>) {
    if b == [] then false
    else if a == [] then true
    else if a[0] != b[0] then a[0] < b[0]
    else StrLess(a[1..], b[1..])
  }

  predicate SubLess(a: SubKey, b: SubKey) {
    match (a, b)
    case (IntSub(i), IntSub(j)) => i < j
    case (StrSub(s), StrSub(t)) => StrLess(s, t)
    case _ => false
  }

  predicate KeyLess(a: Key, b: Key) {
    a.primary < b.primary || (a.primary == b.primary && SubLess(a.sub, b.sub))
  }

  lemma {:induction false} StrTrichotomy(a: seq<Byte>, b: seq<Byte>)
    ensures StrLess(a, b) || StrLess(b, a) || a == b
    ensures !(StrLess(a, b) && StrLess(b, a)) && !StrLess(a, a)
  {
    if a != [] {
      StrTrichotomy(a[1..], if b == [] then [] else b[1..]);
      if b != [] && a[0] == b[0] && a[1..] == b[1..] {
        assert a == [a[0]] + a[1..] && b == [b[0]] + b[1..];
      }
    }
  }

  lemma {:induction false} StrTransitive(a: seq<Byte>, b: seq<Byte>, c: seq<Byte>)
    requires StrLess(a, b) && StrLess(b, c)
    ensures StrLess(a, c)
  {
    if a != [] && a[0] == b[0] && b[0] == c[0] {
      StrTransitive(a[1..], b[1..], c[1..]);
    }
  }

  predicate IsInt(i: int) {
    -0x8000_0000 <= i < 0x8000_0000
  }

  predicate TypedSub(ty: Ty, sub: SubKey) {
    match ty
    case IntType => sub.IntSub? && IsInt(sub.i)
    case StrType => sub.StrSub? && 0 !in sub.s
    case _ => sub.NoSub?
  }

  predicate TypedValue(ty: Ty, value: Value) {
    match ty
    case NoType => value.NoValue?
    case IntType => value.IntVal? && IsInt(value.i)
    case StrType => value.StrVal? && 0 !in value.s
    case FileType => value.FileVal? && 0 !in value.path
    case FontType =>
      && value.FontVal?
      && 0 !in value.font.name
      && IsInt(value.font.bold)
      && IsInt(value.font.height)
      && IsInt(value.font.charset)
  }

  predicate Typed(schema: Schema, e: Entry) {
    && e.key.primary < |schema|
    && TypedSub(schema[e.key.primary].0, e.key.sub)
    && TypedValue(schema[e.key.primary].1, e.value)
  }

  predicate AllTyped(schema: Schema, es: seq<Entry>) {
    forall i :: 0 <= i < |es| ==> Typed(schema, es[i])
  }

  predicate Sorted(es: seq<Entry>) {
    forall i, j :: 0 <= i < j < |es| ==> KeyLess(es[i].key, es[j].key)
  }

  lemma KeysCompare(schema: Schema, a: Entry, b: Entry)
    requires Typed(schema, a) && Typed(schema, b)
    ensures KeyLess(a.key, b.key) || KeyLess(b.key, a.key) || a.key == b.key
    ensures !(KeyLess(a.key, b.key) && KeyLess(b.key, a.key)) && !KeyLess(a.key, a.key)
  {
    if a.key.sub.StrSub? {
      StrTrichotomy(a.key.sub.s, a.key.sub.s);
    }
    if a.key.sub.StrSub? && b.key.sub.StrSub? {
      StrTrichotomy(a.key.sub.s, b.key.sub.s);
    }
  }

  lemma KeyTransitive(a: Key, b: Key, c: Key)
    requires KeyLess(a, b) && KeyLess(b, c)
    ensures KeyLess(a, c)
  {
    if a.sub.StrSub? && b.sub.StrSub? && c.sub.StrSub? && a.primary == b.primary == c.primary {
      StrTransitive(a.sub.s, b.sub.s, c.sub.s);
    }
  }

  // ------------------------------------------------------------------
  // The store as a map

  function Contents(es: seq<Entry>): map<Key, Value> {
    if es == [] then map[] else Contents(es[1..])[es[0].key := es[0].value]
  }

  /** The entries with `e` in its place, instead of an entry of the same key if there is one. */
  function Inserted(es: seq<Entry>, e: Entry): seq<Entry> {
    if es == [] then [e]
    else if KeyLess(es[0].key, e.key) then [es[0]] + Inserted(es[1..], e)
    else if KeyLess(e.key, es[0].key) then [e] + es
    else [e] + es[1..]
  }

  lemma {:induction false} InsertedKeys(es: seq<Entry>, e: Entry)
    ensures forall x :: x in Inserted(es, e) ==> x == e || x in es
  {
    if es != [] {
      InsertedKeys(es[1..], e);
    }
  }

  /** Insertion keeps the order and the types, and is an update of the map. */
  lemma {:induction false} InsertedUpdates(schema: Schema, es: seq<Entry>, e: Entry)
    requires Sorted(es) && AllTyped(schema, es) && Typed(schema, e)
    ensures Sorted(Inserted(es, e)) && AllTyped(schema, Inserted(es, e))
    ensures Contents(Inserted(es, e)) == Contents(es)[e.key := e.value]
  {
    hide Typed, KeyLess;
    if es != [] {
      KeysCompare(schema, es[0], e);
      var rest := Inserted(es[1..], e);
      if KeyLess(es[0].key, e.key) {
        assert AllTyped(schema, es[1..]);
        InsertedUpdates(schema, es[1..], e);
        InsertedKeys(es[1..], e);
        assert Inserted(es, e)[1..] == rest;
        ConsSorted(es[0], rest);
      } else if KeyLess(e.key, es[0].key) {
        forall j | 0 <= j < |es|
          ensures KeyLess(e.key, es[j].key)
        {
          if j > 0 {
            KeyTransitive(e.key, es[0].key, es[j].key);
          }
        }
        assert Inserted(es, e)[1..] == es;
      } else {
        assert Inserted(es, e)[1..] == es[1..];
      }
    }
  }

  lemma ConsSorted(e: Entry, es: seq<Entry>)
    requires Sorted(es) && forall x :: x in es ==> KeyLess(e.key, x.key)
    ensures Sorted([e] + es)
  {
  }

  function InsertedAll(es: seq<Entry>, more: seq<Entry>): seq<Entry>
    decreases |more|
  {
    if more == [] then es else InsertedAll(Inserted(es, more[0]), more[1..])
  }

  /** Inserting entry after entry overrides the old map with the new one. */
  lemma {:induction false} InsertedAllOverrides(schema: Schema, es: seq<Entry>, more: seq<Entry>)
    requires Sorted(es) && AllTyped(schema, es) && Sorted(more) && AllTyped(schema, more)
    ensures Sorted(InsertedAll(es, more)) && AllTyped(schema, InsertedAll(es, more))
    ensures Contents(InsertedAll(es, more)) == Contents(es) + Contents(more)
    decreases |more|
  {
    hide Typed, KeyLess, Inserted;
    if more == [] {
      assert Contents(es) + map[] == Contents(es);
    } else {
      InsertedUpdates(schema, es, more[0]);
      assert AllTyped(schema, more[1..]);
      InsertedAllOverrides(schema, Inserted(es, more[0]), more[1..]);
      FirstKeyOnce(schema, more);
      var e := more[0];
      assert Contents(es)[e.key := e.value] + Contents(more[1..]) == Contents(es) + Contents(more);
    }
  }

  lemma {:induction false} FirstKeyOnce(schema: Schema, es: seq<Entry>)
    requires es != [] && Sorted(es) && AllTyped(schema, es)
    ensures es[0].key !in Contents(es[1..])
  {
    ContentsKeys(es[1..]);
    forall x | x in es[1..]
      ensures x.key != es[0].key
    {
      KeysCompare(schema, es[0], es[0]);
      assert KeyLess(es[0].key, x.key);
    }
  }

  lemma {:induction false} ContentsKeys(es: seq<Entry>)
    ensures forall k :: k in Contents(es) ==> exists x :: x in es && x.key == k
  {
    if es != [] {
      ContentsKeys(es[1..]);
      assert es[0] in es;
      assert forall x :: x in es[1..] ==> x in es;
    }
  }

  /** An ordered list put into an empty store is kept as it is. */
  lemma {:induction false} InsertedAllFromEmpty(schema: Schema, done: seq<Entry>, more: seq<Entry>)
    requires Sorted(done + more) && AllTyped(schema, done + more)
    ensures InsertedAll(done, more) == done + more
    decreases |more|
  {
    if more == [] {
      assert done + more == done;
    } else {
      assert (done + more)[|done|] == more[0];
      forall i | 0 <= i < |done|
        ensures KeyLess(done[i].key, more[0].key)
      {
        assert (done + more)[i] == done[i];
      }
      InsertedLast(done, more[0]);
      assert done + [more[0]] + more[1..] == done + more;
      InsertedAllFromEmpty(schema, done + [more[0]], more[1..]);
    }
  }

  lemma {:induction false} InsertedLast(es: seq<Entry>, e: Entry)
    requires forall i :: 0 <= i < |es| ==> KeyLess(es[i].key, e.key)
    ensures Inserted(es, e) == es + [e]
  {
    if es != [] {
      InsertedLast(es[1..], e);
    }
  }

  // ------------------------------------------------------------------
  // The binary form

  const END: nat := 0xffff_ffff

  function SubBytes(sub: SubKey): seq<Byte> {
    match sub
    case NoSub => []
    case IntSub(i) => Put32(i)
    case StrSub(s) => s + [0]
  }

  function FontBytes(f: Font): seq<Byte> {
    f.name + [0] + (Put32(f.bold) + Put32(f.height) + Put32(f.charset))
  }

  function ValueBytes(v: Value): seq<Byte> {
    match v
    case NoValue => []
    case IntVal(i) => Put32(i)
    case StrVal(s) => s + [0]
    case FileVal(path) => path + [0]
    case FontVal(font) => FontBytes(font)
  }

  function EntryBody(e: Entry): seq<Byte> {
    SubBytes(e.key.sub) + ValueBytes(e.value)
  }

  function EntryBytes(e: Entry): seq<Byte> {
    Put32(e.key.primary) + EntryBody(e)
  }

  function EntriesBytes(es: seq<Entry>): seq<Byte> {
    if es == [] then [] else EntryBytes(es[0]) + EntriesBytes(es[1..])
  }

  function Serialised(es: seq<Entry>): seq<Byte> {
    EntriesBytes(es) + Put32(END)
  }

  // ------------------------------------------------------------------
  // Reading it back

  /** What was read, if anything, and how far the reader got. */
  datatype Step<+T> = Step(result: Option<T>, used: nat)

  /** Position of the first zero byte, or the length. */
  function FindZero(data: seq<Byte>): (z: nat)
    ensures z <= |data| && (z < |data| ==> data[z] == 0)
    ensures 0 !in data[..z]
  {
    if data == [] || data[0] == 0 then 0
    else
      var z := 1 + FindZero(data[1..]);
      assert data[..z] == [data[0]] + data[1..][..z - 1];
      z
  }

  function ReadInt(data: seq<Byte>): (r: Step<int>)
    ensures r.used <= |data| && (r.result.Some? ==> IsInt(r.result.value))
  {
    if |data| < 4 then Step(None, 0) else Step(Some(ToInt(Get32(data))), 4)
  }

  /** A string up to its zero byte. */
  function ReadStr(data: seq<Byte>): (r: Step<seq<Byte>>)
    ensures r.used <= |data| && (r.result.Some? ==> 0 !in r.result.value)
  {
    var z := FindZero(data);
    if z == |data| then Step(None, 0) else Step(Some(data[..z]), z + 1)
  }

  /** A font: its name must leave room for the three numbers. */
  function ReadFont(data: seq<Byte>): (r: Step<Font>)
    ensures r.used <= |data| && (r.result.Some? ==> TypedValue(FontType, FontVal(r.result.value)))
  {
    if |data| < 13 then Step(None, 0)
    else
      var name := ReadStr(data[..|data| - 12]);
      if name.result == None then Step(None, 0)
      else
        var n := data[name.used..];
        Step(Some(Font(name.result.value, ToInt(Get32(n)), ToInt(Get32(n[4..])), ToInt(Get32(n[8..])))), name.used + 12)
  }

  function Map<T, U>(r: Step<T>, f: T -> U): (s: Step<U>)
  {
    Step(match r.result case None => None case Some(x) => Some(f(x)), r.used)
  }

  function ReadSub(ty: Ty, data: seq<Byte>): (r: Step<SubKey>)
    ensures r.used <= |data| && (r.result.Some? ==> TypedSub(ty, r.result.value))
  {
    match ty
    case IntType => Map(ReadInt(data), i => IntSub(i))
    case StrType => Map(ReadStr(data), s => StrSub(s))
    case _ => Step(Some(NoSub), 0)
  }

  function ReadValue(ty: Ty, data: seq<Byte>): (r: Step<Value>)
    ensures r.used <= |data| && (r.result.Some? ==> TypedValue(ty, r.result.value))
  {
    match ty
    case NoType => Step(Some(NoValue), 0)
    case IntType => Map(ReadInt(data), i => IntVal(i))
    case StrType => Map(ReadStr(data), s => StrVal(s))
    case FileType => Map(ReadStr(data), s => FileVal(s))
    case FontType => Map(ReadFont(data), f => FontVal(f))
  }

  /** One entry of a known primary key, after the four bytes of that key. */
  function ReadEntry(schema: Schema, primary: nat, data: seq<Byte>): (r: Step<Entry>)
    requires primary < |schema|
    ensures r.used <= |data| && (r.result.Some? ==> Typed(schema, r.result.value))
  {
    var sub := ReadSub(schema[primary].0, data);
    if sub.result == None then Step(None, sub.used)
    else
      var value := ReadValue(schema[primary].1, data[sub.used..]);
      if value.result == None then Step(None, sub.used + value.used)
      else Step(Some(Entry(Key(primary, sub.result.value), value.result.value)), sub.used + value.used)
  }

  /** The entries after reading `data` into a store that holds `es`, and how far the reader got. */
  function Deserialised(schema: Schema, es: seq<Entry>, data: seq<Byte>): (r: (seq<Entry>, nat))
    ensures r.1 <= |data|
    decreases |data|
  {
    if |data| < 4 then (es, 0)
    else
      var primary := Get32(data);
      if primary >= |schema| then (es, 4)
      else
        var step := ReadEntry(schema, primary, data[4..]);
        if step.result == None then (es, 4 + step.used)
        else
          var r := Deserialised(schema, Inserted(es, step.result.value), data[4 + step.used..]);
          (r.0, 4 + step.used + r.1)
  }

  /** Whatever the bytes are, the store stays ordered and well typed. */
  lemma {:induction false} DeserialisedIsValid(schema: Schema, es: seq<Entry>, data: seq<Byte>)
    requires Sorted(es) && AllTyped(schema, es)
    ensures Sorted(Deserialised(schema, es, data).0) && AllTyped(schema, Deserialised(schema, es, data).0)
    decreases |data|
  {
    hide ReadEntry, Inserted, Typed;
    if |data| >= 4 {
      var primary := Get32(data);
      if primary < |schema| {
        var step := ReadEntry(schema, primary, data[4..]);
        if step.result.Some? {
          InsertedUpdates(schema, es, step.result.value);
          DeserialisedIsValid(schema, Inserted(es, step.result.value), data[4 + step.used..]);
        }
      }
    }
  }

  // ------------------------------------------------------------------
  // Each field comes back, and a cut field is noticed

  lemma {:induction false} ZeroEnds(s: seq<Byte>, rest: seq<Byte>)
    requires 0 !in s
    ensures FindZero(s + rest) == |s| + FindZero(rest)
  {
    if s == [] {
      assert s + rest == rest;
    } else {
      assert (s + rest)[1..] == s[1..] + rest;
      assert s[0] in s;
      ZeroEnds(s[1..], rest);
    }
  }

  lemma StrBack(s: seq<Byte>, rest: seq<Byte>)
    requires 0 !in s
    ensures ReadStr(s + [0] + rest) == Step(Some(s), |s| + 1)
  {
    assert s + [0] + rest == s + ([0] + rest);
    ZeroEnds(s, [0] + rest);
    assert (s + ([0] + rest))[..|s|] == s;
  }

  lemma StrCut(s: seq<Byte>, n: nat)
    requires 0 !in s && n <= |s|
    ensures ReadStr(s[..n]).result == None
  {
    ZeroEnds(s[..n], []);
    assert s[..n] + [] == s[..n];
  }

  lemma IntBack(i: int, rest: seq<Byte>)
    requires IsInt(i)
    ensures ReadInt(Put32(i) + rest) == Step(Some(i), 4)
  {
    hide Put32, Get32;
    Get32Put32(i, rest);
  }

  lemma FontBack(f: Font, rest: seq<Byte>)
    requires TypedValue(FontType, FontVal(f))
    ensures ReadFont(FontBytes(f) + rest) == Step(Some(f), |FontBytes(f)|)
  {
    hide Put32, Get32, ReadStr;
    var numbers := Put32(f.bold) + Put32(f.height) + Put32(f.charset);
    var data := FontBytes(f) + rest;
    var k := |f.name| + 1;
    var tail := (numbers + rest)[..|rest|];
    assert data[..|data| - 12] == f.name + [0] + tail;
    StrBack(f.name, tail);
    NumbersBack(f, data[k..], rest);
  }

  lemma NumbersBack(f: Font, n: seq<Byte>, rest: seq<Byte>)
    requires IsInt(f.bold) && IsInt(f.height) && IsInt(f.charset)
    requires n == Put32(f.bold) + Put32(f.height) + Put32(f.charset) + rest
    ensures |n| >= 12 && ToInt(Get32(n)) == f.bold
    ensures ToInt(Get32(n[4..])) == f.height && ToInt(Get32(n[8..])) == f.charset
  {
    hide Put32, Get32;
    assert n == Put32(f.bold) + n[4..] && n[4..] == Put32(f.height) + n[8..];
    assert n[8..] == Put32(f.charset) + rest;
    Get32Put32(f.bold, n[4..]);
    Get32Put32(f.height, n[8..]);
    Get32Put32(f.charset, rest);
  }

  lemma FontCut(f: Font, n: nat)
    requires TypedValue(FontType, FontVal(f)) && n < |FontBytes(f)|
    ensures ReadFont(FontBytes(f)[..n]).result == None
  {
    hide Put32, Get32, ReadStr;
    if n >= 13 {
      var data := FontBytes(f)[..n];
      assert data[..n - 12] == f.name[..n - 12];
      StrCut(f.name, n - 12);
    }
  }

  lemma SubBack(ty: Ty, sub: SubKey, rest: seq<Byte>)
    requires TypedSub(ty, sub)
    ensures ReadSub(ty, SubBytes(sub) + rest) == Step(Some(sub), |SubBytes(sub)|)
  {
    hide ReadStr, ReadInt, Put32;
    match sub
    case NoSub =>
    case IntSub(i) => IntBack(i, rest);
    case StrSub(s) => StrBack(s, rest);
  }

  lemma SubCut(ty: Ty, sub: SubKey, n: nat)
    requires TypedSub(ty, sub) && n < |SubBytes(sub)|
    ensures ReadSub(ty, SubBytes(sub)[..n]).result == None
  {
    hide ReadStr, Put32;
    if sub.StrSub? {
      assert (sub.s + [0])[..n] == sub.s[..n];
      StrCut(sub.s, n);
    }
  }

  lemma ValueBack(ty: Ty, v: Value, rest: seq<Byte>)
    requires TypedValue(ty, v)
    ensures ReadValue(ty, ValueBytes(v) + rest) == Step(Some(v), |ValueBytes(v)|)
  {
    hide ReadStr, ReadInt, ReadFont, FontBytes, Put32;
    match v
    case NoValue =>
    case IntVal(i) => IntBack(i, rest);
    case StrVal(s) => StrBack(s, rest);
    case FileVal(path) => StrBack(path, rest);
    case FontVal(font) => FontBack(font, rest);
  }

  lemma ValueCut(ty: Ty, v: Value, n: nat)
    requires TypedValue(ty, v) && n < |ValueBytes(v)|
    ensures ReadValue(ty, ValueBytes(v)[..n]).result == None
  {
    hide ReadStr, ReadFont, FontBytes, Put32;
    match v
    case NoValue =>
    case IntVal(_) =>
    case StrVal(s) => assert (s + [0])[..n] == s[..n]; StrCut(s, n);
    case FileVal(s) => assert (s + [0])[..n] == s[..n]; StrCut(s, n);
    case FontVal(font) => FontCut(font, n);
  }

  lemma EntryBack(schema: Schema, e: Entry, rest: seq<Byte>)
    requires Typed(schema, e)
    ensures ReadEntry(schema, e.key.primary, EntryBody(e) + rest) == Step(Some(e), |EntryBody(e)|)
  {
    hide ReadSub, ReadValue, SubBytes, ValueBytes, TypedSub, TypedValue;
    var sub, value := SubBytes(e.key.sub), ValueBytes(e.value);
    assert sub + value + rest == sub + (value + rest);
    SubBack(schema[e.key.primary].0, e.key.sub, value + rest);
    assert (sub + (value + rest))[|sub|..] == value + rest;
    ValueBack(schema[e.key.primary].1, e.value, rest);
  }

  lemma EntryCut(schema: Schema, e: Entry, n: nat)
    requires Typed(schema, e) && n < |EntryBody(e)|
    ensures ReadEntry(schema, e.key.primary, EntryBody(e)[..n]).result == None
  {
    hide ReadSub, ReadValue, SubBytes, ValueBytes, TypedSub, TypedValue;
    var sub, value := SubBytes(e.key.sub), ValueBytes(e.value);
    var ty := schema[e.key.primary];
    if n < |sub| {
      assert (sub + value)[..n] == sub[..n];
      SubCut(ty.0, e.key.sub, n);
    } else {
      assert (sub + value)[..n] == sub + value[..n - |sub|];
      SubBack(ty.0, e.key.sub, value[..n - |sub|]);
      assert (sub + value[..n - |sub|])[|sub|..] == value[..n - |sub|];
      ValueCut(ty.1, e.value, n - |sub|);
    }
  }

  // ------------------------------------------------------------------
  // Whole stores

  /** One entry at the head of the data is inserted, and the rest is read after it. */
  lemma HeadRead(schema: Schema, es: seq<Entry>, e: Entry, rest: seq<Byte>)
    requires Typed(schema, e) && |schema| <= END
    ensures var r := Deserialised(schema, Inserted(es, e), rest);
      Deserialised(schema, es, EntryBytes(e) + rest) == (r.0, |EntryBytes(e)| + r.1)
  {
    hide ReadEntry, EntryBody, Typed, Inserted, Put32, Get32;
    var data, body := EntryBytes(e) + rest, EntryBody(e);
    PrimaryBack(schema, e, body + rest);
    assert data == Put32(e.key.primary) + (body + rest);
    assert data[4..] == body + rest && data[4 + |body|..] == rest;
    EntryBack(schema, e, rest);
  }

  lemma PrimaryBack(schema: Schema, e: Entry, rest: seq<Byte>)
    requires Typed(schema, e) && |schema| <= END
    ensures Get32(Put32(e.key.primary) + rest) == e.key.primary < |schema|
  {
    hide Put32, Get32;
    Get32Put32(e.key.primary, rest);
  }

  /** A cut entry adds nothing. */
  lemma HeadCut(schema: Schema, es: seq<Entry>, e: Entry, n: nat)
    requires Typed(schema, e) && |schema| <= END && n < |EntryBytes(e)|
    ensures Deserialised(schema, es, EntryBytes(e)[..n]).0 == es
  {
    hide ReadEntry, EntryBody, Typed, Put32, Get32;
    if n >= 4 {
      var body := EntryBody(e);
      var data := EntryBytes(e)[..n];
      assert data == Put32(e.key.primary) + body[..n - 4];
      PrimaryBack(schema, e, body[..n - 4]);
      assert data[4..] == body[..n - 4];
      EntryCut(schema, e, n - 4);
    }
  }

  /** Reading a serialised store overrides, and takes exactly its bytes whatever follows them. */
  lemma {:induction false} RoundTrip(schema: Schema, es: seq<Entry>, more: seq<Entry>, rest: seq<Byte>)
    requires AllTyped(schema, more) && |schema| <= END
    ensures Deserialised(schema, es, Serialised(more) + rest) == (InsertedAll(es, more), |Serialised(more)|)
    decreases |more|
  {
    hide Typed, Inserted, EntryBytes, Put32, Get32, ReadEntry;
    if more == [] {
      Get32Put32(END, rest);
      assert Serialised(more) + rest == Put32(END) + rest;
    } else {
      var e := EntryBytes(more[0]);
      assert Serialised(more) + rest == e + (Serialised(more[1..]) + rest);
      HeadRead(schema, es, more[0], Serialised(more[1..]) + rest);
      RoundTrip(schema, Inserted(es, more[0]), more[1..], rest);
    }
  }

  /** Into an empty store: the same store again. */
  lemma RoundTripFromEmpty(schema: Schema, more: seq<Entry>, rest: seq<Byte>)
    requires Sorted(more) && AllTyped(schema, more) && |schema| <= END
    ensures Deserialised(schema, [], Serialised(more) + rest) == (more, |Serialised(more)|)
  {
    RoundTrip(schema, [], more, rest);
    assert [] + more == more;
    InsertedAllFromEmpty(schema, [], more);
  }

  /** Into any other store: the map is overridden. */
  lemma RoundTripOverrides(schema: Schema, es: seq<Entry>, more: seq<Entry>, rest: seq<Byte>)
    requires Sorted(es) && AllTyped(schema, es) && Sorted(more) && AllTyped(schema, more) && |schema| <= END
    ensures Contents(Deserialised(schema, es, Serialised(more) + rest).0) == Contents(es) + Contents(more)
  {
    RoundTrip(schema, es, more, rest);
    InsertedAllOverrides(schema, es, more);
  }

  /** From a prefix of a serialised store exactly the entries that lie wholly within it are taken. */
  lemma {:induction false} TruncatedTakesWholeEntries(schema: Schema, es: seq<Entry>, more: seq<Entry>, n: nat, m: nat)
    requires AllTyped(schema, more) && |schema| <= END && n < |Serialised(more)|
    requires m <= |more| && |EntriesBytes(more[..m])| <= n
    requires m < |more| ==> n < |EntriesBytes(more[..m + 1])|
    ensures Deserialised(schema, es, Serialised(more)[..n]).0 == InsertedAll(es, more[..m])
    decreases m
  {
    hide Typed, Inserted, EntryBytes, Put32, Get32, ReadEntry;
    if more == [] {
    } else if m == 0 {
      assert more[..1] == [more[0]];
      EntriesOfOne(more[0]);
      var e := EntryBytes(more[0]);
      assert Serialised(more) == e + Serialised(more[1..]);
      assert Serialised(more)[..n] == e[..n];
      HeadCut(schema, es, more[0], n);
    } else {
      var e, rest := EntryBytes(more[0]), more[1..];
      PrefixHead(more, m);
      if m < |more| {
        PrefixHead(more, m + 1);
      }
      var k: nat := n - |e|;
      assert Serialised(more) == e + Serialised(rest);
      assert Serialised(more)[..n] == e + Serialised(rest)[..k];
      HeadRead(schema, es, more[0], Serialised(rest)[..k]);
      TruncatedTakesWholeEntries(schema, Inserted(es, more[0]), rest, k, m - 1);
      assert more[..m][0] == more[0] && more[..m][1..] == rest[..m - 1];
    }
  }

  lemma EntriesOfOne(e: Entry)
    ensures EntriesBytes([e]) == EntryBytes(e)
  {
    assert [e][1..] == [];
  }

  lemma PrefixHead(more: seq<Entry>, m: nat)
    requires 1 <= m <= |more|
    ensures EntriesBytes(more[..m]) == EntryBytes(more[0]) + EntriesBytes(more[1..][..m - 1])
  {
    assert more[..m][1..] == more[1..][..m - 1];
  }
}
