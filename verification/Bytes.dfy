/**
 Bytes and the 32-bit big-endian fields that all of the formats are made of.

 Values that the C code keeps in 32-bit variables are brought back into range explicitly, and
 buffers are arrays that are written from the front, with what has been written so far kept.
 A field that is filled in later is skipped first and overwritten afterwards.
 */
module Bytes {

  type Byte = b: int | 0 <= b < 256

  datatype Option<+T> = None | Some(value: T)

  /** The bytes of an ASCII text. */
  function Ascii(s: string): (b: seq<Byte>)
    ensures |b| == |s|
    ensures forall i :: 0 <= i < |s| && s[i] as int < 256 ==> b[i] == s[i] as int
  {
    seq(|s|, i requires 0 <= i < |s| => s[i] as int % 256)
  }

  /** A value as the machine's 32-bit unsigned type holds it. */
  function ToU32(n: int): (u: nat)
    ensures u < 0x1_0000_0000
  {
    n % 0x1_0000_0000
  }

  /** The signed value with the same 32 bits. */
  function ToInt(u: nat): (i: int)
    requires u < 0x1_0000_0000
    ensures -0x8000_0000 <= i < 0x8000_0000
    ensures ToU32(i) == u
  {
    if u < 0x8000_0000 then u else u - 0x1_0000_0000
  }

  /** Two to the power of `n`. */
  function Pow2(n: nat): (p: nat)
    ensures p > 0
  {
    if n == 0 then 1 else 2 * Pow2(n - 1)
  }

  function Put32(n: int): (b: seq<Byte>)
    ensures |b| == 4
  {
    var u := ToU32(n);
    [u / 0x100_0000, u / 0x1_0000 % 0x100, u / 0x100 % 0x100, u % 0x100]
  }

  function Get32(b: seq<Byte>): (u: nat)
    requires |b| >= 4
    ensures u < 0x1_0000_0000
  {
    var b0: int, b1: int, b2: int := b[0], b[1], b[2];
    0x100_0000 * b0 + 0x1_0000 * b1 + 0x100 * b2 + b[3]
  }

  lemma Get32Put32(n: int, rest: seq<Byte>)
    ensures Get32(Put32(n) + rest) == ToU32(n)
  {
    var u := ToU32(n);
    assert u == u / 0x100 * 0x100 + u % 0x100;
    assert u / 0x100 == u / 0x1_0000 * 0x100 + u / 0x100 % 0x100;
    assert u / 0x1_0000 == u / 0x100_0000 * 0x100 + u / 0x1_0000 % 0x100;
  }

  lemma Put32Get32(b: seq<Byte>)
    requires |b| == 4
    ensures Put32(Get32(b)) == b
  {
    var u, b0: int, b1: int, b2: int := Get32(b), b[0], b[1], b[2];
    assert u / 0x100 == 0x1_0000 * b0 + 0x100 * b1 + b2 && u % 0x100 == b[3];
    assert u / 0x1_0000 == 0x100 * b0 + b1;
    assert u / 0x100_0000 == b0;
  }

  /** Copies `data` into `target` at `pos`; what is before it stays. */
  method Append(target: array<Byte>, pos: nat, data: seq<Byte>) returns (end: nat)
    requires pos + |data| <= target.Length
    modifies target
    ensures end == pos + |data|
    ensures target[..end] == old(target[..pos]) + data
  {
    end := pos + |data|;
    forall i | pos <= i < end {
      target[i] := data[i - pos];
    }
    assert target[..end] == old(target[..pos]) + data;
  }

  function Overlaid(s: seq<Byte>, start: nat, data: seq<Byte>): (r: seq<Byte>)
    requires start + |data| <= |s|
    ensures |r| == |s|
  {
    s[..start] + data + s[start + |data|..]
  }

  /** Overwrites a part of what has been written so far, usually a field that was skipped. */
  method Overlay(target: array<Byte>, start: nat, data: seq<Byte>, ghost end: nat)
    requires start + |data| <= end <= target.Length
    modifies target
    ensures target[..end] == Overlaid(old(target[..end]), start, data)
  {
    forall i | start <= i < start + |data| {
      target[i] := data[i - start];
    }
    assert target[..end] == Overlaid(old(target[..end]), start, data);
  }

  lemma OverlaidPart(a: seq<Byte>, part: seq<Byte>, b: seq<Byte>, data: seq<Byte>)
    requires |part| == |data|
    ensures Overlaid(a + part + b, |a|, data) == a + data + b
  {
    var s := a + part + b;
    assert s[..|a|] == a && s[|a| + |part|..] == b;
  }

  lemma LastOverlaid(front: seq<Byte>, part: seq<Byte>, data: seq<Byte>)
    requires |part| == |data|
    ensures Overlaid(front + part, |front|, data) == front + data
  {
    OverlaidPart(front, part, [], data);
    assert front + part + [] == front + part && front + data + [] == front + data;
  }

  lemma ConcatAssoc<T>(a: seq<T>, b: seq<T>, c: seq<T>)
    ensures (a + b) + c == a + (b + c)
  {
  }

  /** The pieces one after another. */
  function Join<T>(pieces: seq<seq<T>>): seq<T> {
    if pieces == [] then [] else Join(pieces[..|pieces| - 1]) + pieces[|pieces| - 1]
  }

  lemma {:induction false} JoinHead<T>(pieces: seq<seq<T>>)
    requires pieces != []
    ensures Join(pieces) == pieces[0] + Join(pieces[1..])
  {
    if |pieces| > 1 {
      var last := pieces[|pieces| - 1];
      JoinHead(pieces[..|pieces| - 1]);
      assert pieces[..|pieces| - 1][1..] == pieces[1..][..|pieces| - 2];
      ConcatAssoc(pieces[0], Join(pieces[1..][..|pieces| - 2]), last);
    } else {
      assert pieces[..0] == [] && pieces[1..] == [];
    }
  }
}
