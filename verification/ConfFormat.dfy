/**
 The serialised form of the configuration, byte by byte, what the reader makes of any bytes, and
 the order of the entries in it.
 */
module ConfFormat {
  import opened Bytes
  import opened Conf

  // ------------------------------------------------------------------
  // The order

  /** `a` runs out first, or has the lesser byte where the two differ first. */
  predicate LessAt(a: seq<Byte>, b: seq<Byte>, k: nat) {
    && k <= |a| && k < |b| && a[..k] == b[..k]
    && (k < |a| ==> a[k] < b[k])
  }

  lemma {:induction false} StrLessMeans(a: seq<Byte>, b: seq<Byte>)
    ensures StrLess(a, b) <==> exists k: nat :: LessAt(a, b, k)
  {
    if a == [] {
      assert b != [] ==> LessAt(a, b, 0);
    } else if b != [] {
      if a[0] == b[0] {
        StrLessMeans(a[1..], b[1..]);
        assert !LessAt(a, b, 0);
        if StrLess(a, b) {
          var k: nat :| LessAt(a[1..], b[1..], k);
          LessFurther(a, b, k);
        }
        forall k: nat | LessAt(a, b, k)
          ensures k > 0 && LessAt(a[1..], b[1..], k - 1)
        {
          LessNearer(a, b, k);
        }
      } else {
        FirstDiffers(a, b);
      }
    }
  }

  lemma LessFurther(a: seq<Byte>, b: seq<Byte>, k: nat)
    requires a != [] && b != [] && a[0] == b[0] && LessAt(a[1..], b[1..], k)
    ensures LessAt(a, b, k + 1)
  {
    assert a[..k + 1] == [a[0]] + a[1..][..k] && b[..k + 1] == [b[0]] + b[1..][..k];
  }

  lemma LessNearer(a: seq<Byte>, b: seq<Byte>, k: nat)
    requires a != [] && b != [] && a[0] == b[0] && LessAt(a, b, k)
    ensures k > 0 && LessAt(a[1..], b[1..], k - 1)
  {
    assert a[1..][..k - 1] == a[..k][1..] && b[1..][..k - 1] == b[..k][1..];
  }

  lemma FirstDiffers(a: seq<Byte>, b: seq<Byte>)
    requires a != [] && b != [] && a[0] != b[0]
    ensures (exists k: nat :: LessAt(a, b, k)) <==> a[0] < b[0]
  {
    if a[0] < b[0] {
      assert LessAt(a, b, 0);
    }
    forall k: nat | LessAt(a, b, k)
      ensures k == 0
    {
      if k > 0 {
        SameFirst(a, b, k);
      }
    }
  }

  lemma SameFirst(a: seq<Byte>, b: seq<Byte>, k: nat)
    requires 0 < k <= |a| && k <= |b| && a[..k] == b[..k]
    ensures a[0] == b[0]
  {
    assert a[..k][0] == b[..k][0];
  }

  /** By primary key first; then by number, or by string. */
  lemma KeyLessMeans(schema: Schema, a: Entry, b: Entry)
    requires Typed(schema, a) && Typed(schema, b)
    ensures a.key.primary < b.key.primary ==> KeyLess(a.key, b.key)
    ensures a.key.primary > b.key.primary ==> !KeyLess(a.key, b.key)
    ensures a.key.primary == b.key.primary ==>
      (KeyLess(a.key, b.key) <==>
         match schema[a.key.primary].0
         case IntType => a.key.sub.i < b.key.sub.i
         case StrType => exists k: nat :: LessAt(a.key.sub.s, b.key.sub.s, k)
         case _ => false)
  {
    if a.key.sub.StrSub? && b.key.sub.StrSub? {
      StrLessMeans(a.key.sub.s, b.key.sub.s);
    }
  }

  // ------------------------------------------------------------------
  // The bytes

  /** The primary key, then the subkey and the value as their types say: numbers in four bytes, texts up to a zero. */
  lemma EntryFormat(schema: Schema, e: Entry)
    requires Typed(schema, e)
    ensures EntryBytes(e) == Put32(e.key.primary)
      + ((match schema[e.key.primary].0
          case IntType => Put32(e.key.sub.i)
          case StrType => e.key.sub.s + [0]
          case _ => [])
       + (match schema[e.key.primary].1
          case NoType => []
          case IntType => Put32(e.value.i)
          case StrType => e.value.s + [0]
          case FileType => e.value.path + [0]
          case FontType => FontBytes(e.value.font)))
  {
    hide Put32, FontBytes;
  }

  /** A font: its name ended by a zero, then bold, height and character set. */
  lemma FontFormat(f: Font)
    ensures FontBytes(f) == f.name + [0] + Put32(f.bold) + Put32(f.height) + Put32(f.charset)
  {
    hide Put32;
  }

  /** The store: its entries in order, and four bytes of ones. */
  lemma {:induction false} StoreFormat(es: seq<Entry>, more: seq<Entry>)
    ensures Serialised([]) == [0xff, 0xff, 0xff, 0xff]
    ensures Serialised(es + more) == EntriesBytes(es) + Serialised(more)
    ensures forall e :: EntriesBytes([e] + es) == EntryBytes(e) + EntriesBytes(es)
  {
    hide EntryBytes;
    assert Put32(END) == [0xff, 0xff, 0xff, 0xff];
    if es == [] {
      assert es + more == more;
    } else {
      assert (es + more)[1..] == es[1..] + more;
      StoreFormat(es[1..], more);
      ConcatAssoc(EntryBytes(es[0]), EntriesBytes(es[1..]), Serialised(more));
      ConcatAssoc(EntryBytes(es[0]), EntriesBytes(es[1..] + more), Put32(END));
    }
    forall e
      ensures EntriesBytes([e] + es) == EntryBytes(e) + EntriesBytes(es)
    {
      assert ([e] + es)[1..] == es;
    }
  }

  // ------------------------------------------------------------------
  // Any bytes

  lemma IntOnly(data: seq<Byte>)
    requires ReadInt(data).result.Some?
    ensures |data| >= 4 && data[..4] == Put32(ReadInt(data).result.value) && ReadInt(data).used == 4
  {
    Put32Get32(data[..4]);
    assert Get32(data[..4]) == Get32(data);
  }

  lemma StrOnly(data: seq<Byte>)
    requires ReadStr(data).result.Some?
    ensures data[..ReadStr(data).used] == ReadStr(data).result.value + [0]
  {
    var z := FindZero(data);
    assert data[..z + 1] == data[..z] + [data[z]];
  }

  lemma FontOnly(data: seq<Byte>)
    requires ReadFont(data).result.Some?
    ensures data[..ReadFont(data).used] == FontBytes(ReadFont(data).result.value)
  {
    hide Put32, Get32, ToInt, ReadStr;
    var name := ReadStr(data[..|data| - 12]);
    StrOnly(data[..|data| - 12]);
    var n := data[name.used..];
    assert data[..|data| - 12][..name.used] == data[..name.used];
    NumberOnly(n);
    NumberOnly(n[4..]);
    NumberOnly(n[8..]);
    assert data[..name.used + 12] == data[..name.used] + (n[..4] + n[4..][..4] + n[8..][..4]);
  }

  lemma NumberOnly(n: seq<Byte>)
    requires |n| >= 4
    ensures n[..4] == Put32(ToInt(Get32(n)))
  {
    Put32Get32(n[..4]);
    assert Get32(n[..4]) == Get32(n);
  }

  lemma SubOnly(ty: Ty, data: seq<Byte>)
    requires ReadSub(ty, data).result.Some?
    ensures data[..ReadSub(ty, data).used] == SubBytes(ReadSub(ty, data).result.value)
  {
    hide ReadInt, ReadStr, Put32;
    match ty
    case IntType => IntOnly(data);
    case StrType => StrOnly(data);
    case _ =>
  }

  lemma ValueOnly(ty: Ty, data: seq<Byte>)
    requires ReadValue(ty, data).result.Some?
    ensures data[..ReadValue(ty, data).used] == ValueBytes(ReadValue(ty, data).result.value)
  {
    hide ReadInt, ReadStr, ReadFont, FontBytes, Put32;
    match ty
    case NoType =>
    case IntType => IntOnly(data);
    case StrType => StrOnly(data);
    case FileType => StrOnly(data);
    case FontType => FontOnly(data);
  }

  lemma EntryOnly(schema: Schema, primary: nat, data: seq<Byte>)
    requires primary < |schema| && ReadEntry(schema, primary, data).result.Some?
    ensures var r := ReadEntry(schema, primary, data);
      data[..r.used] == EntryBody(r.result.value) && r.result.value.key.primary == primary
  {
    hide ReadSub, ReadValue, SubBytes, ValueBytes;
    var ty := schema[primary];
    var sub := ReadSub(ty.0, data);
    SubOnly(ty.0, data);
    var value := ReadValue(ty.1, data[sub.used..]);
    ValueOnly(ty.1, data[sub.used..]);
    assert data[..sub.used + value.used] == data[..sub.used] + data[sub.used..][..value.used];
  }

  /** The data do not begin with an entry. */
  ghost predicate NoEntry(schema: Schema, data: seq<Byte>) {
    forall e, rest :: Typed(schema, e) ==> data != EntryBytes(e) + rest
  }

  lemma EntryFound(schema: Schema, e: Entry, rest: seq<Byte>)
    requires Typed(schema, e) && |schema| <= END
    ensures var data := EntryBytes(e) + rest;
      Get32(data) < |schema| && ReadEntry(schema, Get32(data), data[4..]).result.Some?
  {
    hide ReadEntry, EntryBody, Put32, Get32, Typed;
    var data := EntryBytes(e) + rest;
    PrimaryBack(schema, e, EntryBody(e) + rest);
    assert data == Put32(e.key.primary) + (EntryBody(e) + rest);
    EntryBack(schema, e, rest);
    assert data[4..] == EntryBody(e) + rest;
  }

  lemma NoneFound(schema: Schema, data: seq<Byte>)
    requires |schema| <= END
    requires |data| >= 4 && Get32(data) < |schema| ==> ReadEntry(schema, Get32(data), data[4..]).result == None
    ensures NoEntry(schema, data)
  {
    hide ReadEntry, EntryBytes, Get32, Typed;
    forall e, rest | Typed(schema, e)
      ensures data != EntryBytes(e) + rest
    {
      EntryFound(schema, e, rest);
      HasWord(e, rest);
    }
  }

  lemma HasWord(e: Entry, rest: seq<Byte>)
    ensures |EntryBytes(e) + rest| >= 4
  {
  }

  /** From any bytes the reader takes the entries they begin with, one after another, and stops where there is none. */
  lemma {:induction false} TakesLeadingEntries(schema: Schema, es: seq<Entry>, data: seq<Byte>)
    returns (more: seq<Entry>, tail: seq<Byte>)
    requires |schema| <= END
    ensures AllTyped(schema, more) && data == EntriesBytes(more) + tail && NoEntry(schema, tail)
    ensures Deserialised(schema, es, data).0 == InsertedAll(es, more)
    decreases |data|
  {
    hide ReadEntry, EntryBytes, Typed, Inserted, Put32, Get32, NoEntry;
    if |data| >= 4 && Get32(data) < |schema| && ReadEntry(schema, Get32(data), data[4..]).result.Some? {
      var step := ReadEntry(schema, Get32(data), data[4..]);
      var e, rest := step.result.value, data[4 + step.used..];
      EntryTaken(schema, data);
      more, tail := TakesLeadingEntries(schema, Inserted(es, e), rest);
      ConcatAssoc(EntryBytes(e), EntriesBytes(more), tail);
      assert ([e] + more)[1..] == more;
      more := [e] + more;
    } else {
      more, tail := [], data;
      NoneFound(schema, data);
      assert [] + data == data;
    }
  }

  lemma EntryTaken(schema: Schema, data: seq<Byte>)
    requires |data| >= 4 && Get32(data) < |schema| && ReadEntry(schema, Get32(data), data[4..]).result.Some?
    ensures var step := ReadEntry(schema, Get32(data), data[4..]);
      data == EntryBytes(step.result.value) + data[4 + step.used..]
  {
    hide ReadEntry, EntryBody, Put32, Get32;
    var step := ReadEntry(schema, Get32(data), data[4..]);
    EntryOnly(schema, Get32(data), data[4..]);
    WordOf(data);
    assert data == data[..4] + (data[4..][..step.used] + data[4 + step.used..]);
  }

  lemma WordOf(data: seq<Byte>)
    requires |data| >= 4
    ensures data[..4] == Put32(Get32(data))
  {
    Put32Get32(data[..4]);
    assert Get32(data[..4]) == Get32(data);
  }
}
