/**
 Numbers as big-endian bytes, as far as the key file code handles them: the value of some bytes,
 the bytes of a value, and the remainders that it computes for a private RSA key.
 */
module Bignum {
  import opened Bytes

  /** The unsigned value of big-endian bytes. */
  function Value(s: seq<Byte>): nat {
    if s == [] then 0 else 256 * Value(s[..|s| - 1]) + s[|s| - 1]
  }

  /** The number of bits without leading zeros; none for zero. */
  function Bits(v: nat): nat {
    if v == 0 then 0 else 1 + Bits(v / 2)
  }

  /** A byte of a number, counted from the lowest. */
  function ByteAt(v: nat, i: nat): Byte {
    if i == 0 then v % 256 else ByteAt(v / 256, i - 1)
  }

  /** As few bytes as there can be if the first one has to show that the number is not negative. */
  function SignedBytes(v: nat): (s: seq<Byte>)
    ensures |s| >= 1
  {
    if v < 128 then [v] else SignedBytes(v / 256) + [v % 256]
  }

  lemma {:induction false} SignedBytesMean(v: nat)
    ensures var s := SignedBytes(v);
      && Value(s) == v && s[0] < 0x80
      && (|s| > 1 && s[0] == 0 ==> s[1] >= 0x80)
      && |s| == (Bits(v) + 8) / 8
  {
    if v < 128 {
      assert Value([]) == 0;
      SmallBits(v);
    } else {
      SignedBytesMean(v / 256);
      BitsOfByte(v);
      var front := SignedBytes(v / 256);
      assert SignedBytes(v)[..|front|] == front;
    }
  }

  lemma {:induction false} SmallBits(v: nat)
    requires v < 128
    ensures Bits(v) < 8
  {
    if v < 8 {
      TinyBits(v);
    } else {
      FourBits(v);
      TinyBits(v / 16);
    }
  }

  lemma TinyBits(v: nat)
    requires v < 8
    ensures Bits(v) <= 3
  {
    var a := v / 2;
    assert Bits(a / 2) <= 1;
    assert Bits(a) <= 1 + Bits(a / 2);
  }

  lemma FourBits(v: nat)
    requires v >= 8
    ensures Bits(v) == 4 + Bits(v / 16)
  {
    var a, b, c := v / 2, v / 4, v / 8;
    assert a / 2 == b && b / 2 == c && c / 2 == v / 16;
    assert Bits(v) == 1 + Bits(a);
    assert Bits(a) == 1 + Bits(b);
    assert Bits(b) == 1 + Bits(c);
  }

  lemma BitsOfByte(v: nat)
    requires v >= 128
    ensures Bits(v) == 8 + Bits(v / 256)
  {
    FourBits(v);
    FourBits(v / 16);
    assert v / 16 / 16 == v / 256;
  }

  lemma {:induction false} SignedByteAt(v: nat, i: nat)
    requires i < |SignedBytes(v)|
    ensures SignedBytes(v)[|SignedBytes(v)| - 1 - i] == ByteAt(v, i)
  {
    if v >= 128 && i > 0 {
      SignedByteAt(v / 256, i - 1);
    }
  }

  /** Fills a buffer with the bytes, for which there must be room for one more bit. */
  method BignumBytes(v: nat) returns (s: seq<Byte>)
    ensures s == SignedBytes(v)
  {
    hide SignedBytes, ByteAt, Bits;
    SignedBytesMean(v);
    var n := (Bits(v) + 8) / 8;
    var blob := new Byte[n];
    var i := 0;
    while i < n
      invariant 0 <= i <= n
      invariant forall q :: 0 <= q < i ==> blob[q] == SignedBytes(v)[q]
    {
      SignedByteAt(v, n - 1 - i);
      blob[i] := ByteAt(v, n - 1 - i);
      i := i + 1;
    }
    s := blob[..];
  }

  /** What a private key keeps for one of its primes. */
  function Remainder(d: seq<Byte>, p: seq<Byte>): nat
    requires Value(p) > 1
  {
    Value(d) % (Value(p) - 1)
  }

  /** A 32-bit field holds its value, highest byte first. */
  lemma Put32Value(u: nat)
    requires u < 0x1_0000_0000
    ensures Value(Put32(u)) == u
  {
    hide Value, Put32, Get32;
    var b := Put32(u);
    ValueOfFour(b);
    Get32Put32(u, []);
    assert b + [] == b;
  }

  lemma ValueOfFour(b: seq<Byte>)
    requires |b| == 4
    ensures Value(b) == Get32(b)
  {
    assert Value(b[..0]) == 0;
    assert b[..2][..1] == b[..1] && b[..3][..2] == b[..2];
    assert Value(b[..1]) == b[0];
    assert Value(b[..2]) == 256 * (b[0] as int) + b[1];
  }
}
