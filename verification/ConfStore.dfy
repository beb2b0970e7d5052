/** The configuration object itself: looking up, inserting, listing, writing out and reading in. */
module ConfStore {
  import opened Bytes
  import opened Conf

  // ------------------------------------------------------------------
  // Searching an ordered list

  /** Index of the first entry whose key is not below `k`. */
  function FirstAtLeast(es: seq<Entry>, k: Key): (i: nat)
    ensures i <= |es|
  {
    if es == [] || !KeyLess(es[0].key, k) then 0 else 1 + FirstAtLeast(es[1..], k)
  }

  /** Index of the first entry whose key is above `k`. */
  function FirstAbove(es: seq<Entry>, k: Key): (i: nat)
    ensures i <= |es|
  {
    if es == [] || KeyLess(k, es[0].key) then 0 else 1 + FirstAbove(es[1..], k)
  }

  lemma {:induction false} FirstAtLeastIs(es: seq<Entry>, k: Key, i: nat)
    requires i <= |es| && forall j :: 0 <= j < i ==> KeyLess(es[j].key, k)
    requires i == |es| || !KeyLess(es[i].key, k)
    ensures FirstAtLeast(es, k) == i
  {
    if i > 0 {
      FirstAtLeastIs(es[1..], k, i - 1);
    }
  }

  lemma {:induction false} FirstAboveIs(es: seq<Entry>, k: Key, i: nat)
    requires i <= |es| && forall j :: 0 <= j < i ==> !KeyLess(k, es[j].key)
    requires i == |es| || KeyLess(k, es[i].key)
    ensures FirstAbove(es, k) == i
  {
    if i > 0 {
      FirstAboveIs(es[1..], k, i - 1);
    }
  }

  /** Where the search stops is where the entry goes. */
  lemma {:induction false} InsertedAt(es: seq<Entry>, e: Entry, i: nat)
    requires i <= |es| && forall j :: 0 <= j < i ==> KeyLess(es[j].key, e.key)
    requires i == |es| || !KeyLess(es[i].key, e.key)
    ensures Inserted(es, e)
         == es[..i] + [e] + (if i < |es| && !KeyLess(e.key, es[i].key) then es[i + 1..] else es[i..])
  {
    if i > 0 {
      InsertedAt(es[1..], e, i - 1);
    }
  }

  /** The search finds a key exactly if the map has it. */
  lemma {:induction false} LookedUp(schema: Schema, es: seq<Entry>, e: Entry, i: nat)
    requires Sorted(es) && AllTyped(schema, es) && Typed(schema, e)
    requires i <= |es| && forall j :: 0 <= j < i ==> KeyLess(es[j].key, e.key)
    requires i == |es| || !KeyLess(es[i].key, e.key)
    ensures e.key in Contents(es) <==> i < |es| && !KeyLess(e.key, es[i].key)
    ensures i < |es| && !KeyLess(e.key, es[i].key) ==> Contents(es)[e.key] == es[i].value
  {
    hide Typed;
    if es != [] {
      KeysCompare(schema, es[0], e);
      KeysCompare(schema, e, e);
      if i > 0 {
        assert AllTyped(schema, es[1..]);
        LookedUp(schema, es[1..], e, i - 1);
      } else if KeyLess(e.key, es[0].key) {
        NoneBelow(e.key, es);
      }
    }
  }

  lemma NoneBelow(k: Key, es: seq<Entry>)
    requires es != [] && Sorted(es) && KeyLess(k, es[0].key) && !KeyLess(k, k)
    ensures k !in Contents(es)
  {
    ContentsKeys(es);
    forall x | x in es
      ensures x.key != k
    {
      if x != es[0] {
        KeyTransitive(k, es[0].key, x.key);
      }
    }
  }

  // ------------------------------------------------------------------
  // Listing the string subkeys of one primary key

  /** The entries of one primary key, in order. */
  function Under(es: seq<Entry>, primary: nat): seq<Entry> {
    if es == [] then [] else (if es[0].key.primary == primary then [es[0]] else []) + Under(es[1..], primary)
  }

  function Start(es: seq<Entry>, primary: nat): (i: nat)
    ensures i <= |es|
  {
    FirstAtLeast(es, Key(primary, StrSub([])))
  }

  function OfPrimary(es: seq<Entry>, primary: nat, i: nat): Option<Entry> {
    if i >= |es| || es[i].key.primary != primary then None else Some(es[i])
  }

  /** The entry after a subkey, or the first one. */
  function NextStr(es: seq<Entry>, primary: nat, after: Option<seq<Byte>>): Option<Entry> {
    match after
    case None => OfPrimary(es, primary, Start(es, primary))
    case Some(s) => OfPrimary(es, primary, FirstAbove(es, Key(primary, StrSub(s))))
  }

  function NthStr(es: seq<Entry>, primary: nat, n: nat): Option<Entry> {
    var i := Start(es, primary);
    if OfPrimary(es, primary, i) == None then None else OfPrimary(es, primary, i + n)
  }

  function At<T>(s: seq<T>, i: nat): Option<T> {
    if i < |s| then Some(s[i]) else None
  }

  /** `under` lies at `i` in the list, and what is after it belongs to later keys. */
  ghost predicate LiesAt(es: seq<Entry>, primary: nat, i: nat, under: seq<Entry>) {
    && i + |under| <= |es|
    && es[i..i + |under|] == under
    && (forall j :: 0 <= j < |under| ==> under[j].key.primary == primary && under[j].key.sub.StrSub?)
    && (i + |under| < |es| ==> es[i + |under|].key.primary > primary)
  }

  /** The entries of a primary key are one stretch, and the search for the empty subkey finds its start. */
  lemma {:induction false} UnderIsStretch(schema: Schema, es: seq<Entry>, primary: nat)
    requires Sorted(es) && AllTyped(schema, es) && primary < |schema| && schema[primary].0 == StrType
    ensures LiesAt(es, primary, Start(es, primary), Under(es, primary))
  {
    hide LiesAt, Under, Start, Sorted, Typed;
    Unfold(schema, es, primary);
    if es == [] {
      LiesInNothing(primary);
    } else {
      TailIsValid(schema, es);
      UnderIsStretch(schema, es[1..], primary);
      PrimaryStart(schema, es[0], primary);
      if es[0].key.primary < primary {
        LiesFurther(es, primary, Start(es[1..], primary), Under(es[1..], primary));
      } else {
        RestStartsAtOnce(schema, es, primary);
        LiesAtOnce(es, primary, Under(es[1..], primary));
      }
    }
  }

  lemma TailIsValid(schema: Schema, es: seq<Entry>)
    requires es != [] && Sorted(es) && AllTyped(schema, es)
    ensures Typed(schema, es[0]) && Sorted(es[1..]) && AllTyped(schema, es[1..])
  {
    hide Typed, KeyLess;
  }

  lemma Unfold(schema: Schema, es: seq<Entry>, primary: nat)
    requires AllTyped(schema, es) && primary < |schema| && schema[primary].0 == StrType
    ensures es == [] ==> Under(es, primary) == [] && Start(es, primary) == 0
    ensures es != [] ==>
      var under := Under(es[1..], primary);
      Under(es, primary) == if es[0].key.primary == primary then [es[0]] + under else under
    ensures es != [] ==>
      Start(es, primary) == if es[0].key.primary < primary then Start(es[1..], primary) + 1 else 0
  {
    hide Typed, KeyLess;
    if es != [] {
      PrimaryStart(schema, es[0], primary);
    }
  }

  lemma LiesInNothing(primary: nat)
    ensures LiesAt([], primary, 0, [])
  {
  }

  lemma LiesFurther(es: seq<Entry>, primary: nat, i: nat, under: seq<Entry>)
    requires es != [] && LiesAt(es[1..], primary, i, under)
    ensures LiesAt(es, primary, i + 1, under)
  {
    assert es[1 + i..1 + i + |under|] == es[1..][i..i + |under|];
  }

  lemma LiesAtOnce(es: seq<Entry>, primary: nat, under: seq<Entry>)
    requires es != [] && es[0].key.primary >= primary && LiesAt(es[1..], primary, 0, under)
    requires es[0].key.primary == primary ==> es[0].key.sub.StrSub?
    requires Sorted(es)
    ensures LiesAt(es, primary, 0, if es[0].key.primary == primary then [es[0]] + under else under)
  {
    hide SubLess;
    if under != [] {
      assert es[1] == es[1..][..|under|][0];
      assert KeyLess(es[0].key, es[1].key);
    }
    if es[0].key.primary == primary {
      assert es[..1 + |under|] == [es[0]] + es[1..][..|under|];
    }
  }

  lemma RestStartsAtOnce(schema: Schema, es: seq<Entry>, primary: nat)
    requires es != [] && Sorted(es) && AllTyped(schema, es) && es[0].key.primary >= primary
    requires primary < |schema| && schema[primary].0 == StrType
    ensures Start(es[1..], primary) == 0
  {
    hide Typed, SubLess;
    if |es| > 1 {
      assert KeyLess(es[0].key, es[1].key);
      PrimaryStart(schema, es[1], primary);
    }
  }

  lemma PrimaryStart(schema: Schema, e: Entry, primary: nat)
    requires Typed(schema, e) && primary < |schema| && schema[primary].0 == StrType
    ensures KeyLess(e.key, Key(primary, StrSub([]))) <==> e.key.primary < primary
    ensures e.key.primary == primary ==> e.key.sub.StrSub?
  {
  }

  /** Starting with no subkey and going on from each one found visits every entry once, in order. */
  lemma NextVisitsAll(schema: Schema, es: seq<Entry>, primary: nat, k: nat)
    requires Sorted(es) && AllTyped(schema, es) && primary < |schema| && schema[primary].0 == StrType
    requires k < |Under(es, primary)|
    ensures Under(es, primary)[k].key.sub.StrSub?
    ensures NextStr(es, primary, Some(Under(es, primary)[k].key.sub.s)) == At(Under(es, primary), k + 1)
  {
    hide Under, Start, TypedSub, TypedValue;
    UnderIsStretch(schema, es, primary);
    var i, under := Start(es, primary), Under(es, primary);
    assert under[k] == es[i + k];
    assert k + 1 < |under| ==> under[k + 1] == es[i + k + 1];
    forall j | 0 <= j < i + k + 1
      ensures !KeyLess(es[i + k].key, es[j].key)
    {
      KeysCompare(schema, es[j], es[i + k]);
    }
    FirstAboveIs(es, es[i + k].key, i + k + 1);
    assert es[i + k].key == Key(primary, StrSub(under[k].key.sub.s));
  }

  lemma FirstAndNth(schema: Schema, es: seq<Entry>, primary: nat, n: nat)
    requires Sorted(es) && AllTyped(schema, es) && primary < |schema| && schema[primary].0 == StrType
    ensures NextStr(es, primary, None) == At(Under(es, primary), 0)
    ensures NthStr(es, primary, n) == At(Under(es, primary), n)
  {
    hide Under, Start, TypedSub, TypedValue;
    UnderIsStretch(schema, es, primary);
    var i, under := Start(es, primary), Under(es, primary);
    assert |under| > 0 ==> under[0] == es[i];
    assert n < |under| ==> under[n] == es[i + n];
    if |under| < n && i + n < |es| {
      assert KeyLess(es[i + |under|].key, es[i + n].key);
    }
  }

  /** Even from a subkey that is not there, the listing goes on with the least one above it. */
  lemma NextIsLeastAbove(schema: Schema, es: seq<Entry>, primary: nat, s: seq<Byte>, x: Entry)
    requires Sorted(es) && AllTyped(schema, es) && primary < |schema| && schema[primary].0 == StrType
    requires x in es && x.key.primary == primary && KeyLess(Key(primary, StrSub(s)), x.key)
    ensures var next := NextStr(es, primary, Some(s));
      && next.Some? && next.value in es
      && KeyLess(Key(primary, StrSub(s)), next.value.key)
      && (next.value == x || KeyLess(next.value.key, x.key))
  {
    hide Typed, SubLess;
    var j :| 0 <= j < |es| && es[j] == x;
    AboveBounds(es, Key(primary, StrSub(s)), j);
    var i := FirstAbove(es, Key(primary, StrSub(s)));
    if i < j {
      assert KeyLess(es[i].key, x.key);
    }
  }

  lemma {:induction false} AboveBounds(es: seq<Entry>, k: Key, j: nat)
    requires j < |es| && KeyLess(k, es[j].key)
    ensures FirstAbove(es, k) <= j && KeyLess(k, es[FirstAbove(es, k)].key)
  {
    if !KeyLess(k, es[0].key) {
      AboveBounds(es[1..], k, j - 1);
    }
  }

  function SomeValue(ty: Ty): (v: Value)
    ensures TypedValue(ty, v)
  {
    match ty
    case NoType => NoValue
    case IntType => IntVal(0)
    case StrType => StrVal([])
    case FileType => FileVal([])
    case FontType => FontVal(Font([], 0, 0, 0))
  }

  // ------------------------------------------------------------------
  // The object

  class Store {
    const schema: Schema
    var entries: seq<Entry>

    ghost predicate Valid()
      reads this
    {
      Sorted(entries) && AllTyped(schema, entries) && |schema| <= END
    }

    constructor (schema: Schema)
      requires |schema| <= END
      ensures Valid() && entries == [] && this.schema == schema
    {
      this.schema := schema;
      entries := [];
    }

    /** Index of the first entry that is not below the key. */
    method Search(k: Key) returns (i: nat)
      ensures i <= |entries| && (forall j :: 0 <= j < i ==> KeyLess(entries[j].key, k))
      ensures i == |entries| || !KeyLess(entries[i].key, k)
    {
      i := 0;
      while i < |entries| && KeyLess(entries[i].key, k)
        invariant i <= |entries| && forall j :: 0 <= j < i ==> KeyLess(entries[j].key, k)
      {
        i := i + 1;
      }
    }

    /** Adds an entry, unless one of the same key is there already; that one is handed back. */
    method Add(e: Entry) returns (existing: Option<Entry>)
      requires Valid() && Typed(schema, e)
      modifies this
      ensures existing == None ==> entries == Inserted(old(entries), e) && Valid()
      ensures existing.Some? ==> entries == old(entries) && existing.value.key == e.key && existing.value in entries
      ensures existing == None <==> e.key !in Contents(old(entries))
    {
      var i := Search(e.key);
      LookedUp(schema, entries, e, i);
      if i < |entries| && !KeyLess(e.key, entries[i].key) {
        KeysCompare(schema, entries[i], e);
        return Some(entries[i]);
      }
      InsertedAt(entries, e, i);
      InsertedUpdates(schema, entries, e);
      entries := entries[..i] + [e] + entries[i..];
      return None;
    }

    /** Removes an entry that is there. */
    method Delete(e: Entry)
      requires Valid() && e in entries
      modifies this
      ensures Valid() && e.key !in Contents(entries)
      ensures exists i :: 0 <= i < |old(entries)| && old(entries)[i] == e && entries == Without(old(entries), i)
      ensures forall x: Entry :: x.key == e.key ==> Inserted(entries, x) == Inserted(old(entries), x)
    {
      var i := Search(e.key);
      Removal(schema, entries, e, i);
      entries := Without(entries, i);
    }

    /** The entry takes the place of an older one of the same key. */
    method Insert(e: Entry)
      requires Valid() && Typed(schema, e)
      modifies this
      ensures Valid() && entries == Inserted(old(entries), e)
      ensures Contents(entries) == Contents(old(entries))[e.key := e.value]
    {
      InsertedUpdates(schema, entries, e);
      var existing := Add(e);
      if existing.Some? {
        Delete(existing.value);
        existing := Add(e);
        assert existing == None;
      }
    }

    /** Takes a string subkey out; nothing happens if it is not there. */
    method DelStrStr(primary: nat, s: seq<Byte>)
      requires Valid() && primary < |schema| && schema[primary].0 == StrType && 0 !in s
      modifies this
      ensures Valid()
      ensures Contents(entries) == Contents(old(entries)) - {Key(primary, StrSub(s))}
      ensures Key(primary, StrSub(s)) !in Contents(old(entries)) ==> entries == old(entries)
    {
      var k := Key(primary, StrSub(s));
      var i := Search(k);
      LookedUp(schema, entries, Entry(k, SomeValue(schema[primary].1)), i);
      if i < |entries| && !KeyLess(k, entries[i].key) {
        KeysCompare(schema, entries[i], Entry(k, SomeValue(schema[primary].1)));
        ContentsWithout(schema, entries, i);
        Delete(entries[i]);
      }
    }

    /** The value of a key, if there is one. */
    method Get(k: Key) returns (r: Option<Value>)
      requires Valid() && k.primary < |schema| && TypedSub(schema[k.primary].0, k.sub)
      ensures r == if k in Contents(entries) then Some(Contents(entries)[k]) else None
    {
      var i := Search(k);
      LookedUp(schema, entries, Entry(k, SomeValue(schema[k.primary].1)), i);
      r := if i < |entries| && !KeyLess(k, entries[i].key) then Some(entries[i].value) else None;
    }

    /** The next string subkey and its value, or the first. */
    method GetStrStrs(primary: nat, after: Option<seq<Byte>>) returns (next: Option<Entry>)
      ensures next == NextStr(entries, primary, after)
    {
      var i: nat;
      match after {
        case Some(s) =>
          i := SearchAbove(Key(primary, StrSub(s)));
        case None =>
          i := Search(Key(primary, StrSub([])));
          FirstAtLeastIs(entries, Key(primary, StrSub([])), i);
      }
      if i == |entries| || entries[i].key.primary != primary {
        return None;
      }
      return Some(entries[i]);
    }

    method SearchAbove(k: Key) returns (i: nat)
      ensures i == FirstAbove(entries, k)
    {
      i := 0;
      while i < |entries| && !KeyLess(k, entries[i].key)
        invariant i <= |entries| && forall j :: 0 <= j < i ==> !KeyLess(k, entries[j].key)
      {
        i := i + 1;
      }
      FirstAboveIs(entries, k, i);
    }

    method GetNthStrKey(primary: nat, n: nat) returns (key: Option<SubKey>)
      requires Valid() && primary < |schema| && schema[primary].0 == StrType
      ensures key == match At(Under(entries, primary), n) case Some(e) => Some(e.key.sub) case None => None
    {
      FirstAndNth(schema, entries, primary, n);
      var i := Search(Key(primary, StrSub([])));
      FirstAtLeastIs(entries, Key(primary, StrSub([])), i);
      if i == |entries| || entries[i].key.primary != primary {
        return None;
      }
      if i + n >= |entries| || entries[i + n].key.primary != primary {
        return None;
      }
      return Some(entries[i + n].key.sub);
    }

    /** The listing loop of the store's users: each entry of the primary key once, in order. */
    method List(primary: nat) returns (all: seq<Entry>)
      requires Valid() && primary < |schema| && schema[primary].0 == StrType
      ensures all == Under(entries, primary)
    {
      hide Sorted, AllTyped, Under, NextStr;
      FirstAndNth(schema, entries, primary, 0);
      ghost var under := Under(entries, primary);
      all := [];
      var next := GetStrStrs(primary, None);
      while next.Some?
        invariant |all| <= |under| && all == under[..|all|] && next == At(under, |all|)
        decreases |under| - |all|
      {
        NextVisitsAll(schema, entries, primary, |all|);
        all := all + [next.value];
        next := GetStrStrs(primary, Some(next.value.key.sub.s));
      }
    }

    /** Replaces everything by the entries of another store. */
    method CopyInto(target: Store)
      requires Valid() && this != target && schema == target.schema
      modifies target
      ensures target.Valid() && target.entries == entries
    {
      target.entries := [];
      var i := 0;
      while i < |entries|
        invariant i <= |entries| && target.entries == entries[..i] && target.Valid()
      {
        AppendsNext(schema, entries, i);
        var existing := target.Add(entries[i]);
        i := i + 1;
      }
    }

    // ----------------------------------------------------------------
    // Writing out

    method SerialisedSize() returns (size: nat)
      ensures size == |Serialised(entries)|
    {
      size := 0;
      var i := 0;
      while i < |entries|
        invariant i <= |entries| && size + |EntriesBytes(entries[i..])| == |EntriesBytes(entries)|
      {
        TailHead(entries, i);
        var n := EntrySize(entries[i]);
        size := size + n;
        i := i + 1;
      }
      size := size + 4;
    }

    method Serialise(data: array<Byte>)
      requires data.Length >= |Serialised(entries)|
      modifies data
      ensures data[..|Serialised(entries)|] == Serialised(entries)
    {
      var p: nat, i: nat := 0, 0;
      while i < |entries|
        invariant i <= |entries| && p <= data.Length
        invariant data[..p] + EntriesBytes(entries[i..]) == EntriesBytes(entries)
      {
        TailHead(entries, i);
        ghost var before, rest := data[..p], EntriesBytes(entries[i + 1..]);
        ConcatAssoc(before, EntryBytes(entries[i]), rest);
        assert |before + EntryBytes(entries[i]) + rest| == |EntriesBytes(entries)|;
        p := PutEntry(data, p, entries[i]);
        i := i + 1;
      }
      assert data[..p] == EntriesBytes(entries);
      p := Append(data, p, Put32(END));
    }

    // ----------------------------------------------------------------
    // Reading in

    /** Inserts what the data hold, up to the terminator or the first entry that is cut or unknown. */
    method Deserialise(data: seq<Byte>) returns (used: nat)
      requires Valid()
      modifies this
      ensures Valid() && (entries, used) == Deserialised(schema, old(entries), data)
    {
      hide Deserialised, ReadEntry, Inserted, Get32, Sorted, AllTyped;
      used := 0;
      while |data| - used >= 4
        invariant Valid() && used <= |data|
        invariant Deserialised(schema, old(entries), data)
               == Later(used, Deserialised(schema, entries, data[used..]))
      {
        ghost var here := data[used..];
        Unfolded(schema, entries, here);
        var primary := Get32(data[used..]);
        used := used + 4;
        assert data[used..] == here[4..];
        if primary >= |schema| {
          return;
        }
        var e, end := GetEntry(schema, primary, data, used);
        assert data[end..] == here[4 + (end - used)..];
        used := end;
        if e == None {
          return;
        }
        Insert(e.value);
      }
      Unfolded(schema, entries, data[used..]);
    }
  }

  lemma Unfolded(schema: Schema, es: seq<Entry>, data: seq<Byte>)
    ensures |data| < 4 ==> Deserialised(schema, es, data) == (es, 0)
    ensures |data| >= 4 && Get32(data) >= |schema| ==> Deserialised(schema, es, data) == (es, 4)
    ensures |data| >= 4 && Get32(data) < |schema| ==>
      var step := ReadEntry(schema, Get32(data), data[4..]);
      Deserialised(schema, es, data)
        == if step.result == None then (es, 4 + step.used)
           else Later(4 + step.used, Deserialised(schema, Inserted(es, step.result.value), data[4 + step.used..]))
  {
    hide ReadEntry, Inserted, Get32;
  }

  /** A result of the deserialiser, counted from `n` bytes before. */
  function Later(n: nat, r: (seq<Entry>, nat)): (seq<Entry>, nat) {
    (r.0, n + r.1)
  }

  method EntrySize(e: Entry) returns (size: nat)
    ensures size == |EntryBytes(e)|
  {
    size := 4;
    match e.key.sub {
      case IntSub(_) => size := size + 4;
      case StrSub(s) => size := size + 1 + |s|;
      case NoSub =>
    }
    match e.value {
      case IntVal(_) => size := size + 4;
      case StrVal(s) => size := size + 1 + |s|;
      case FileVal(path) => size := size + (|path| + 1);
      case FontVal(font) => size := size + (|font.name| + 1 + 12);
      case NoValue =>
    }
  }

  method GetEntry(schema: Schema, primary: nat, data: seq<Byte>, p: nat) returns (e: Option<Entry>, end: nat)
    requires primary < |schema| && p <= |data|
    ensures p <= end <= |data| && Step(e, end - p) == ReadEntry(schema, primary, data[p..])
  {
    hide ReadSub, ReadValue;
    var sub, middle := GetSub(schema[primary].0, data, p);
    if sub == None {
      return None, middle;
    }
    assert data[middle..] == data[p..][middle - p..];
    var value;
    value, end := GetValue(schema[primary].1, data, middle);
    e := if value == None then None else Some(Entry(Key(primary, sub.value), value.value));
  }

  method GetInt(data: seq<Byte>, p: nat) returns (i: Option<int>, end: nat)
    requires p <= |data|
    ensures p <= end <= |data| && Step(i, end - p) == ReadInt(data[p..])
  {
    if |data| - p < 4 {
      return None, p;
    }
    return Some(ToInt(Get32(data[p..]))), p + 4;
  }

  lemma StrFound(data: seq<Byte>, p: nat, zero: nat, limit: nat)
    requires p <= zero <= limit <= |data| && 0 !in data[p..zero] && (zero < limit ==> data[zero] == 0)
    ensures ReadStr(data[p..limit]) ==
      if zero == limit then Step(None, 0) else Step(Some(data[p..zero]), zero - p + 1)
  {
    ZeroEnds(data[p..zero], data[zero..limit]);
    assert data[p..zero] + data[zero..limit] == data[p..limit];
    assert data[p..limit][..zero - p] == data[p..zero];
  }

  /** Searches for the zero byte that ends a string, before `limit`. */
  method GetStr(data: seq<Byte>, p: nat, limit: nat) returns (s: Option<seq<Byte>>, end: nat)
    requires p <= limit <= |data|
    ensures p <= end <= limit && Step(s, end - p) == ReadStr(data[p..limit])
  {
    hide ReadStr;
    var zero := p;
    while zero < limit && data[zero] != 0
      invariant p <= zero <= limit && 0 !in data[p..zero]
    {
      zero := zero + 1;
    }
    StrFound(data, p, zero, limit);
    if zero == limit {
      return None, p;
    }
    return Some(data[p..zero]), zero + 1;
  }

  method GetFont(data: seq<Byte>, p: nat) returns (f: Option<Font>, end: nat)
    requires p <= |data|
    ensures p <= end <= |data| && Step(f, end - p) == ReadFont(data[p..])
  {
    hide ReadStr, Get32;
    if |data| - p < 13 {
      return None, p;
    }
    assert data[p..][..|data[p..]| - 12] == data[p..|data| - 12];
    var name;
    name, end := GetStr(data, p, |data| - 12);
    if name == None {
      return None, p;
    }
    ghost var n := data[p..][end - p..];
    assert n == data[end..] && n[4..] == data[end + 4..] && n[8..] == data[end + 8..];
    var bold, height, charset := Get32(data[end..]), Get32(data[end + 4..]), Get32(data[end + 8..]);
    f := Some(Font(name.value, ToInt(bold), ToInt(height), ToInt(charset)));
    end := end + 12;
  }

  method GetSub(ty: Ty, data: seq<Byte>, p: nat) returns (sub: Option<SubKey>, end: nat)
    requires p <= |data|
    ensures p <= end <= |data| && Step(sub, end - p) == ReadSub(ty, data[p..])
  {
    hide ReadStr, ReadInt;
    assert data[p..|data|] == data[p..];
    match ty {
      case IntType =>
        var i;
        i, end := GetInt(data, p);
        sub := if i == None then None else Some(IntSub(i.value));
      case StrType =>
        var s;
        s, end := GetStr(data, p, |data|);
        sub := if s == None then None else Some(StrSub(s.value));
      case _ =>
        sub, end := Some(NoSub), p;
    }
  }

  method GetValue(ty: Ty, data: seq<Byte>, p: nat) returns (value: Option<Value>, end: nat)
    requires p <= |data|
    ensures p <= end <= |data| && Step(value, end - p) == ReadValue(ty, data[p..])
  {
    hide ReadStr, ReadInt, ReadFont;
    assert data[p..|data|] == data[p..];
    match ty {
      case IntType =>
        var i;
        i, end := GetInt(data, p);
        value := if i == None then None else Some(IntVal(i.value));
      case StrType =>
        var s;
        s, end := GetStr(data, p, |data|);
        value := if s == None then None else Some(StrVal(s.value));
      case FileType =>
        var s;
        s, end := GetStr(data, p, |data|);
        value := if s == None then None else Some(FileVal(s.value));
      case FontType =>
        var f;
        f, end := GetFont(data, p);
        value := if f == None then None else Some(FontVal(f.value));
      case NoType =>
        value, end := Some(NoValue), p;
    }
  }

  lemma AppendsNext(schema: Schema, es: seq<Entry>, i: nat)
    requires Sorted(es) && AllTyped(schema, es) && i < |es|
    ensures es[i].key !in Contents(es[..i]) && Inserted(es[..i], es[i]) == es[..i + 1] && Typed(schema, es[i])
  {
    hide Typed;
    InsertedLast(es[..i], es[i]);
    ContentsKeys(es[..i]);
    forall x | x in es[..i]
      ensures x.key != es[i].key
    {
      KeysCompare(schema, es[i], es[i]);
    }
  }

  function Without(es: seq<Entry>, i: nat): seq<Entry>
    requires i < |es|
  {
    es[..i] + es[i + 1..]
  }

  /** Taking an entry out takes its key out of the map. */
  lemma {:induction false} ContentsWithout(schema: Schema, es: seq<Entry>, i: nat)
    requires Sorted(es) && AllTyped(schema, es) && i < |es|
    ensures Contents(Without(es, i)) == Contents(es) - {es[i].key}
    ensures forall j :: 0 <= j < |es| && es[j] == es[i] ==> j == i
  {
    hide Typed, KeyLess;
    if i == 0 {
      assert Without(es, 0) == es[1..];
      FirstKeyOnce(schema, es);
    } else {
      assert AllTyped(schema, es[1..]);
      ContentsWithout(schema, es[1..], i - 1);
      assert Without(es, i)[1..] == Without(es[1..], i - 1) && Without(es, i)[0] == es[0];
      assert KeyLess(es[0].key, es[i].key);
      KeysCompare(schema, es[0], es[i]);
    }
    forall j | 0 <= j < |es| && es[j] == es[i]
      ensures j == i
    {
      KeysCompare(schema, es[i], es[i]);
    }
  }

  lemma SearchHits(schema: Schema, es: seq<Entry>, e: Entry, i: nat)
    requires Sorted(es) && AllTyped(schema, es) && e in es
    requires i <= |es| && forall j :: 0 <= j < i ==> KeyLess(es[j].key, e.key)
    requires i == |es| || !KeyLess(es[i].key, e.key)
    ensures i < |es| && es[i] == e
  {
    hide Typed;
    var j :| 0 <= j < |es| && es[j] == e;
    KeysCompare(schema, e, e);
  }

  lemma Removal(schema: Schema, es: seq<Entry>, e: Entry, i: nat)
    requires Sorted(es) && AllTyped(schema, es) && e in es
    requires i <= |es| && forall j :: 0 <= j < i ==> KeyLess(es[j].key, e.key)
    requires i == |es| || !KeyLess(es[i].key, e.key)
    ensures i < |es| && es[i] == e
    ensures var left := es[..i] + es[i + 1..];
      && Sorted(left) && AllTyped(schema, left) && e.key !in Contents(left)
      && forall x: Entry :: x.key == e.key ==> Inserted(left, x) == Inserted(es, x)
  {
    hide Typed;
    SearchHits(schema, es, e, i);
    KeysCompare(schema, e, e);
    if i + 1 < |es| {
      KeysCompare(schema, e, es[i + 1]);
    }
    var left := es[..i] + es[i + 1..];
    assert forall k :: 0 <= k < |left| ==> left[k] == es[if k < i then k else k + 1];
    LookedUp(schema, left, e, i);
    forall x: Entry | x.key == e.key
      ensures Inserted(left, x) == Inserted(es, x)
    {
      InsertedAt(left, x, i);
      InsertedAt(es, x, i);
    }
  }

  lemma TailHead(es: seq<Entry>, i: nat)
    requires i < |es|
    ensures EntriesBytes(es[i..]) == EntryBytes(es[i]) + EntriesBytes(es[i + 1..])
  {
    assert es[i..][1..] == es[i + 1..];
  }

  /** Writes one entry, field by field. */
  method PutEntry(data: array<Byte>, p: nat, e: Entry) returns (end: nat)
    requires p + |EntryBytes(e)| <= data.Length
    modifies data
    ensures end <= data.Length && data[..end] == old(data[..p]) + EntryBytes(e)
  {
    hide Put32, SubBytes, ValueBytes;
    ghost var lead := data[..p];
    end := Append(data, p, Put32(e.key.primary));
    end := PutSub(data, end, e.key.sub);
    end := PutValue(data, end, e.value);
    EntryAfter(lead, e);
  }

  lemma EntryAfter(lead: seq<Byte>, e: Entry)
    ensures lead + Put32(e.key.primary) + SubBytes(e.key.sub) + ValueBytes(e.value) == lead + EntryBytes(e)
  {
    hide Put32, SubBytes, ValueBytes;
  }

  method PutSub(data: array<Byte>, p: nat, sub: SubKey) returns (end: nat)
    requires p + |SubBytes(sub)| <= data.Length
    modifies data
    ensures end == p + |SubBytes(sub)| && data[..end] == old(data[..p]) + SubBytes(sub)
  {
    match sub {
      case IntSub(i) => end := Append(data, p, Put32(i));
      case StrSub(s) => end := PutStr(data, p, s);
      case NoSub => end := p;
    }
  }

  method PutStr(data: array<Byte>, p: nat, s: seq<Byte>) returns (end: nat)
    requires p + |s| + 1 <= data.Length
    modifies data
    ensures end == p + |s| + 1 && data[..end] == old(data[..p]) + (s + [0])
  {
    end := Append(data, p, s);
    data[end] := 0;
    end := end + 1;
  }

  method PutValue(data: array<Byte>, p: nat, v: Value) returns (end: nat)
    requires p + |ValueBytes(v)| <= data.Length
    modifies data
    ensures end <= data.Length && data[..end] == old(data[..p]) + ValueBytes(v)
  {
    hide Put32, FontBytes;
    end := p;
    match v {
      case IntVal(i) => end := Append(data, p, Put32(i));
      case StrVal(s) => end := PutStr(data, p, s);
      case FileVal(path) => end := PutStr(data, p, path);
      case FontVal(font) => end := PutFont(data, p, font);
      case NoValue =>
    }
  }

  method PutFont(data: array<Byte>, p: nat, font: Font) returns (end: nat)
    requires p + |FontBytes(font)| <= data.Length
    modifies data
    ensures end <= data.Length && data[..end] == old(data[..p]) + FontBytes(font)
  {
    hide Put32;
    end := PutStr(data, p, font.name);
    end := Append(data, end, Put32(font.bold));
    end := Append(data, end, Put32(font.height));
    end := Append(data, end, Put32(font.charset));
  }
}
