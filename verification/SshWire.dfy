/**
 Length-prefixed strings and integers (section 5 of RFC 4251), written into and read out of buffers.

 The readers move a cursor over the data, or leave it where it is when the data are too
 short; one of them instead moves it to the end, so that later reads fail too.
 */
module SshWire {
  import opened Bytes

  function SshString(s: seq<Byte>): (r: seq<Byte>)
    ensures |r| == 4 + |s|
  {
    Put32(|s|) + s
  }

  lemma StringField(lead: seq<Byte>, s: seq<Byte>)
    ensures lead + Put32(|s|) + s == lead + SshString(s)
  {
    hide Put32;
  }

  /** An integer from its big-endian bytes: a zero byte keeps it positive. */
  function SshMpint(s: seq<Byte>): (r: seq<Byte>) {
    if s != [] && s[0] >= 0x80 then SshString([0] + s) else SshString(s)
  }

  function SshStrings(ss: seq<seq<Byte>>): (r: seq<Byte>) {
    if ss == [] then [] else SshString(ss[0]) + SshStrings(ss[1..])
  }

  /** What a reader gives: a value, or the error it stopped with. */
  datatype Outcome<+T, +E> = Success(value: T) | Failure(error: E) {
    predicate IsFailure() {
      Failure?
    }

    function PropagateFailure<U>(): Outcome<U, E>
      requires Failure?
    {
      Failure(error)
    }

    function Extract(): T
      requires Success?
    {
      value
    }
  }

  function Check<E>(condition: bool, error: E): Outcome<(), E> {
    if condition then Success(()) else Failure(error)
  }

  function Need<T, E>(o: Option<T>, error: E): Outcome<T, E> {
    match o
    case None => Failure(error)
    case Some(v) => Success(v)
  }

  /** What a string read leaves: the string and the bytes after it. */
  datatype Parsed<+T> = Parsed(value: T, rest: seq<Byte>)

  function ReadString(data: seq<Byte>): (r: Option<Parsed<seq<Byte>>>) {
    if |data| < 4 then None
    else
      var len := Get32(data);
      if |data| - 4 < len then None else Some(Parsed(data[4..4 + len], data[4 + len..]))
  }

  function ReadUint32(data: seq<Byte>): (r: Option<Parsed<nat>>) {
    if |data| < 4 then None else Some(Parsed(Get32(data), data[4..]))
  }

  /** A string in front of other data is read back, ... */
  lemma ReadStringBack(s: seq<Byte>, rest: seq<Byte>)
    requires |s| < 0x1_0000_0000
    ensures ReadString(SshString(s) + rest) == Some(Parsed(s, rest))
  {
    Get32Put32(|s|, s + rest);
    var data := SshString(s) + rest;
    assert data == Put32(|s|) + (s + rest);
    assert data[4..4 + |s|] == s && data[4 + |s|..] == rest;
  }

  /** ... and nothing else is read as that string. */
  lemma ReadStringOnly(data: seq<Byte>)
    requires ReadString(data).Some?
    ensures var p := ReadString(data).value;
      data == SshString(p.value) + p.rest && |p.value| < 0x1_0000_0000
  {
    var len := Get32(data);
    Put32Get32(data[..4]);
    assert Get32(data[..4]) == len;
    assert data == data[..4] + data[4..4 + len] + data[4 + len..];
  }

  lemma ReadUint32Back(n: int, rest: seq<Byte>)
    ensures ReadUint32(Put32(n) + rest) == Some(Parsed(ToU32(n), rest))
  {
    Get32Put32(n, rest);
  }

  lemma ReadUint32Only(data: seq<Byte>)
    requires ReadUint32(data).Some?
    ensures var p := ReadUint32(data).value;
      p.value < 0x1_0000_0000 && data[..4] == Put32(p.value) && data == Put32(p.value) + p.rest
  {
    Put32Get32(data[..4]);
    assert Get32(data[..4]) == Get32(data);
  }

  /** The cursor that the readers carry through a key file. */
  class Cursor {
    var data: seq<Byte>

    constructor (data: seq<Byte>)
      ensures this.data == data
    {
      this.data := data;
    }

    /** On failure the cursor stays where it is. */
    method GetString() returns (s: Option<seq<Byte>>)
      modifies this
      ensures match ReadString(old(data))
        case None => s == None && data == old(data)
        case Some(p) => s == Some(p.value) && data == p.rest
    {
      if |data| < 4 {
        return None;
      }
      var len := Get32(data);
      if |data| - 4 < len {
        return None;
      }
      s := Some(data[4..4 + len]);
      data := data[4 + len..];
    }

    method GetUint32() returns (n: Option<nat>)
      modifies this
      ensures match ReadUint32(old(data))
        case None => n == None && data == old(data)
        case Some(p) => n == Some(p.value) && data == p.rest
    {
      if |data| < 4 {
        return None;
      }
      n := Some(Get32(data));
      data := data[4..];
    }
  }

  method PutString(target: array<Byte>, pos: nat, data: seq<Byte>) returns (end: nat)
    requires pos + |data| + 4 <= target.Length
    modifies target
    ensures end == pos + |data| + 4
    ensures target[..end] == old(target[..pos]) + SshString(data)
  {
    var body := Append(target, pos, Put32(|data|));
    end := Append(target, body, data);
  }

  method PutMp(target: array<Byte>, pos: nat, data: seq<Byte>) returns (end: nat)
    requires pos + |data| + 5 <= target.Length
    modifies target
    ensures end == pos + |SshMpint(data)|
    ensures target[..end] == old(target[..pos]) + SshMpint(data)
  {
    if data != [] && data[0] >= 0x80 {
      ghost var signed, was := [0] + data, target[..pos];
      var sign := Append(target, pos, Put32(|data| + 1));
      assert target[..sign] == was + Put32(|signed|);
      var body := Append(target, sign, [0]);
      end := Append(target, body, data);
      assert target[..end] == was + Put32(|signed|) + [0] + data;
      assert target[..end] == was + SshString(signed);
    } else {
      end := PutString(target, pos, data);
    }
  }

  /**
   The bounds of an integer at `pos`: its first byte and length, and the position after
   it.  On failure the length is -1 and everything up to the end is skipped.
   */
  method Ssh2ReadMpint(data: seq<Byte>, pos: nat) returns (start: nat, bytes: int, end: nat)
    requires pos <= |data|
    ensures match ReadString(data[pos..])
      case None => bytes == -1 && end == |data|
      case Some(p) =>
        if |p.value| >= 0x8000_0000 then bytes == -1 && end == |data|
        else && 0 <= bytes == |p.value| && start == pos + 4 && end == start + bytes <= |data|
             && p.value == data[start..end] && p.rest == data[end..]
  {
    start := 0;
    if |data| - pos < 4 {
      return 0, -1, |data|;
    }
    bytes := ToInt(Get32(data[pos..]));
    if bytes < 0 || |data| - pos - 4 < bytes {
      return 0, -1, |data|;
    }
    return pos + 4, bytes, pos + 4 + bytes;
  }
}
