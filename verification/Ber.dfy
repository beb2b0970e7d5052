/** ASN.1 headers. */
module Ber {
  import opened Bytes

  // ASN.1 identifier and length pairs as the PEM key code writes and reads them.
  //
  // The reader's loop over a multi-byte identifier looks at the top bit of the first byte,
  // which belongs to the class, so that such identifiers come back only for two of the four classes.

  const CONSTRUCTED: Byte := 0x20

  /** A digit is eight bits in a length and seven in an identifier. */
  function Low(x: nat, wide: bool): (r: nat)
    ensures r < if wide then 256 else 128
  {
    if wide then x % 256 else x % 128
  }

  function DropDigit(x: nat, wide: bool): (r: nat)
    ensures r <= x && (x > 0 ==> r < x)
    ensures x == (if wide then r * 256 else r * 128) + Low(x, wide)
  {
    if wide then x / 256 else x / 128
  }

  /** `x` shifted right by `n` digits. */
  function Shifted(x: nat, wide: bool, n: nat): (r: nat)
    ensures r <= x
  {
    if n == 0 then x else DropDigit(Shifted(x, wide, n - 1), wide)
  }

  /** The first of the low `n` digits as a byte; in an identifier all but the last have the top bit set. */
  function FirstByte(x: nat, wide: bool, n: nat): (b: Byte)
    requires n > 0
  {
    var digit := Low(Shifted(x, wide, n - 1), wide);
    if !wide && n > 1 then 0x80 + digit else digit
  }

  /** The low `n` digits of `x`, most significant first. */
  function DigitBytes(x: nat, wide: bool, n: nat): (r: seq<Byte>)
    ensures |r| == n
  {
    if n == 0 then [] else [FirstByte(x, wide, n)] + DigitBytes(x, wide, n - 1)
  }

  /** The number of digits the writer emits: at least one. */
  function DigitCount(x: nat, wide: bool, n: nat): (r: nat)
    ensures r >= n && Shifted(x, wide, r) == 0
    decreases Shifted(x, wide, n)
  {
    if Shifted(x, wide, n) == 0 then n else DigitCount(x, wide, n + 1)
  }

  /** Class and constructed bits: the top three. */
  predicate IsFlags(flags: Byte) {
    flags % 32 == 0
  }

  function IdBytes(id: nat, flags: Byte): (r: seq<Byte>)
    requires IsFlags(flags)
  {
    if id <= 30 then [OrLow(flags, id)]
    else [OrLow(flags, 31)] + DigitBytes(id, false, DigitCount(id, false, 1))
  }

  function OrLow(flags: Byte, low: nat): Byte
    requires IsFlags(flags) && low < 32
  {
    flags + low
  }

  function LengthBytes(length: nat): (r: seq<Byte>)
    requires length < 0x100_0000
  {
    if length < 128 then [length]
    else
      FewDigits(length);
      [0x80 + DigitCount(length, true, 1)] + DigitBytes(length, true, DigitCount(length, true, 1))
  }

  lemma FewDigits(length: nat)
    requires length < 0x100_0000
    ensures 1 <= DigitCount(length, true, 1) <= 3
  {
    assert Shifted(length, true, 1) == DropDigit(Shifted(length, true, 0), true) == length / 256 < 0x1_0000;
    assert Shifted(length, true, 2) == DropDigit(Shifted(length, true, 1), true) < 0x100;
    assert Shifted(length, true, 3) == DropDigit(Shifted(length, true, 2), true) == 0;
    assert DigitCount(length, true, 3) == 3;
    assert DigitCount(length, true, 2) <= 3;
  }

  function BerHeader(id: nat, length: nat, flags: Byte): (r: seq<Byte>)
    requires IsFlags(flags) && length < 0x100_0000
  {
    IdBytes(id, flags) + LengthBytes(length)
  }

  // ------------------------------------------------------------------
  // The writer

  /** Puts one byte, unless this is the pass that only counts. */
  method Emit(dest: array?<Byte>, pos: nat, len: nat, b: Byte) returns (len': nat)
    requires dest != null ==> pos + len < dest.Length
    modifies dest
    ensures len' == len + 1
    ensures dest != null ==> dest[..pos + len'] == old(dest[..pos + len]) + [b]
  {
    if dest != null {
      dest[pos + len] := b;
    }
    len' := len + 1;
  }

  method CountDigits(x: nat, wide: bool) returns (n: nat)
    ensures n == DigitCount(x, wide, 1)
  {
    n := 1;
    while Shifted(x, wide, n) > 0
      invariant DigitCount(x, wide, n) == DigitCount(x, wide, 1)
      decreases Shifted(x, wide, n)
    {
      n := n + 1;
    }
  }

  lemma EmittedOne(written: seq<Byte>, b: Byte, next: seq<Byte>, left: seq<Byte>, left': seq<Byte>)
    requires next == written + [b] && left == [b] + left'
    ensures next + left' == written + left
  {
  }

  method EmitDigits(dest: array?<Byte>, pos: nat, len: nat, x: nat, wide: bool, n: nat) returns (len': nat)
    requires dest != null ==> pos + len + n <= dest.Length
    modifies dest
    ensures len' == len + n
    ensures dest != null ==> dest[..pos + len'] == old(dest[..pos + len]) + DigitBytes(x, wide, n)
  {
    len' := len;
    ghost var left, goal := DigitBytes(x, wide, n), [];
    if dest != null {
      goal := dest[..pos + len] + left;
    }
    var k := n;
    while k > 0
      invariant 0 <= k <= n && len' == len + n - k
      invariant left == DigitBytes(x, wide, k)
      invariant dest != null ==> dest[..pos + len'] + left == goal
    {
      ghost var before, left' := [], DigitBytes(x, wide, k - 1);
      if dest != null {
        before := dest[..pos + len'];
      }
      var b := FirstByte(x, wide, k);
      len' := Emit(dest, pos, len', b);
      if dest != null {
        EmittedOne(before, b, dest[..pos + len'], left, left');
      }
      k := k - 1;
      left := left';
    }
  }

  /** With `dest == null` nothing is written and only the size is returned. */
  method BerWriteIdLen(dest: array?<Byte>, pos: nat, id: nat, length: nat, flags: Byte) returns (len: nat)
    requires IsFlags(flags) && length < 0x100_0000 && id < 0x1000_0000
    requires dest != null ==> pos + |BerHeader(id, length, flags)| <= dest.Length
    modifies dest
    ensures len == |BerHeader(id, length, flags)|
    ensures dest != null ==> dest[..pos + len] == old(dest[..pos]) + BerHeader(id, length, flags)
  {
    ghost var wrote, rest := IdBytes(id, flags), LengthBytes(length);
    len := WriteId(dest, pos, id, flags);
    len := WriteLength(dest, pos, len, length);
    assert dest != null ==> dest[..pos + len] == old(dest[..pos]) + wrote + rest;
  }

  method WriteLength(dest: array?<Byte>, pos: nat, len: nat, length: nat) returns (len': nat)
    requires length < 0x100_0000
    requires dest != null ==> pos + len + |LengthBytes(length)| <= dest.Length
    modifies dest
    ensures len' == len + |LengthBytes(length)|
    ensures dest != null ==> dest[..pos + len'] == old(dest[..pos + len]) + LengthBytes(length)
  {
    if length < 128 {
      len' := Emit(dest, pos, len, length);
    } else {
      FewDigits(length);
      var n := CountDigits(length, true);
      ghost var lead, digits := [0x80 + n], DigitBytes(length, true, n);
      len' := Emit(dest, pos, len, 0x80 + n);
      len' := EmitDigits(dest, pos, len', length, true, n);
      assert dest != null ==> dest[..pos + len'] == old(dest[..pos + len]) + (lead + digits);
    }
  }

  method WriteId(dest: array?<Byte>, pos: nat, id: nat, flags: Byte) returns (len: nat)
    requires IsFlags(flags)
    requires dest != null ==> pos + |IdBytes(id, flags)| <= dest.Length
    modifies dest
    ensures len == |IdBytes(id, flags)|
    ensures dest != null ==> dest[..pos + len] == old(dest[..pos]) + IdBytes(id, flags)
  {
    if id <= 30 {
      len := Emit(dest, pos, 0, OrLow(flags, id));
    } else {
      len := Emit(dest, pos, 0, OrLow(flags, 31));
      var n := CountDigits(id, false);
      len := EmitDigits(dest, pos, len, id, false, n);
    }
  }

  // ------------------------------------------------------------------
  // The reader

  datatype Head = Head(id: int, length: int, flags: Byte, used: nat)

  /** From the byte at `p`: the identifier gathered and the position of its last byte. */
  function IdLoop(src: seq<Byte>, p: nat, id: nat): (r: Option<(nat, nat)>)
    requires p < |src| && id < 0x1_0000_0000
    ensures r.Some? ==> p <= r.value.1 < |src| && r.value.0 < 0x1_0000_0000
    decreases |src| - p
  {
    if src[p] < 0x80 then Some((id, p))
    else if p + 1 == |src| then None
    else IdLoop(src, p + 1, ToU32(id * 128 + src[p + 1] % 128))
  }

  /** An unsigned 32-bit accumulator fed with the bytes of `s`. */
  function Gathered(s: seq<Byte>, acc: nat): (r: nat)
    requires acc < 0x1_0000_0000
    ensures r < 0x1_0000_0000
  {
    if s == [] then acc else Gathered(s[1..], ToU32(acc * 256 + s[0]))
  }

  function ReadLength(src: seq<Byte>, p: nat, id: nat, flags: Byte): (r: Option<Head>)
    requires p <= |src| && id < 0x1_0000_0000
    ensures r.Some? ==> p < r.value.used <= |src|
  {
    if p == |src| then None
    else if src[p] < 0x80 then Some(Head(ToInt(id), src[p], flags, p + 1))
    else
      var n := src[p] - 0x80;
      if |src| - (p + 1) < n then None
      else Some(Head(ToInt(id), ToInt(Gathered(src[p + 1..p + 1 + n], 0)), flags, p + 1 + n))
  }

  function ReadIdLen(src: seq<Byte>): (r: Option<Head>)
    ensures r.Some? ==> 0 < r.value.used <= |src|
  {
    if src == [] then None
    else
      var flags := src[0] - src[0] % 32;
      if src[0] % 32 == 31 then
        match IdLoop(src, 0, 0)
        case None => None
        case Some((id, p)) => ReadLength(src, p + 1, id, flags)
      else ReadLength(src, 1, src[0] % 32, flags)
  }

  method BerReadIdLen(src: seq<Byte>) returns (r: Option<Head>)
    ensures r == ReadIdLen(src)
  {
    if src == [] {
      return None;
    }
    var flags: Byte := src[0] - src[0] % 32;
    var id: nat, p := 0, 0;
    if src[0] % 32 == 31 {
      while src[p] >= 0x80
        invariant 0 <= p < |src| && id < 0x1_0000_0000
        invariant IdLoop(src, p, id) == IdLoop(src, 0, 0)
        decreases |src| - p
      {
        p := p + 1;
        if p == |src| {
          return None;
        }
        id := ToU32(id * 128 + src[p] % 128);
      }
    } else {
      id := src[0] % 32;
    }
    r := BerReadLength(src, p + 1, id, flags);
  }

  method BerReadLength(src: seq<Byte>, start: nat, id: nat, flags: Byte) returns (r: Option<Head>)
    requires start <= |src| && id < 0x1_0000_0000
    ensures r == ReadLength(src, start, id, flags)
  {
    var p := start;
    if p == |src| {
      return None;
    }
    if src[p] < 0x80 {
      return Some(Head(ToInt(id), src[p], flags, p + 1));
    }
    var n: nat := src[p] - 0x80;
    p := p + 1;
    if |src| - p < n {
      return None;
    }
    var len: nat, i: nat := 0, 0;
    ghost var digits := src[p..p + n];
    while i < n
      invariant 0 <= i <= n && len < 0x1_0000_0000
      invariant Gathered(digits[i..], len) == Gathered(digits, 0)
    {
      assert digits[i..][1..] == digits[i + 1..];
      len := ToU32(len * 256 + src[p + i]);
      i := i + 1;
    }
    r := Some(Head(ToInt(id), ToInt(len), flags, p + n));
  }

  // ------------------------------------------------------------------
  // The round trip

  lemma NextDigit(x: nat, wide: bool, n: nat)
    requires x < 0x1_0000_0000 && n > 0
    ensures ToU32((if wide then Shifted(x, wide, n) * 256 else Shifted(x, wide, n) * 128)
      + Low(Shifted(x, wide, n - 1), wide)) == Shifted(x, wide, n - 1)
  {
  }

  lemma {:induction false} GatheredDigits(x: nat, n: nat)
    requires x < 0x1_0000_0000
    ensures Gathered(DigitBytes(x, true, n), Shifted(x, true, n)) == x
  {
    if n > 0 {
      var s, acc, next := DigitBytes(x, true, n), Shifted(x, true, n), Shifted(x, true, n - 1);
      NextDigit(x, true, n);
      assert s[1..] == DigitBytes(x, true, n - 1);
      assert Gathered(s, acc) == Gathered(s[1..], next);
      GatheredDigits(x, n - 1);
    }
  }

  lemma {:induction false} IdLoopDigits(src: seq<Byte>, p: nat, x: nat, n: nat)
    requires x < 0x1_0000_0000 && n > 0 && p + n < |src|
    requires src[p] >= 0x80
    requires src[p + 1..p + 1 + n] == DigitBytes(x, false, n)
    ensures IdLoop(src, p, Shifted(x, false, n)) == Some((x, p + n))
    decreases n
  {
    var all := DigitBytes(x, false, n);
    var next := Shifted(x, false, n - 1);
    assert src[p + 1] == all[0];
    assert src[p + 1] % 128 == Low(next, false);
    NextDigit(x, false, n);
    if n > 1 {
      assert src[p + 2..p + 1 + n] == all[1..];
      assert all[1..] == DigitBytes(x, false, n - 1);
      IdLoopDigits(src, p + 1, x, n - 1);
    }
  }

  lemma ReadLengthBack(prefix: seq<Byte>, length: nat, rest: seq<Byte>, id: nat, flags: Byte)
    requires length < 0x100_0000 && id < 0x1000_0000
    ensures ReadLength(prefix + LengthBytes(length) + rest, |prefix|, id, flags)
      == Some(Head(id, length, flags, |prefix| + |LengthBytes(length)|))
  {
    var src := prefix + LengthBytes(length) + rest;
    if length >= 128 {
      FewDigits(length);
      var n := DigitCount(length, true, 1);
      GatheredDigits(length, n);
      assert src[|prefix| + 1..|prefix| + 1 + n] == DigitBytes(length, true, n);
    }
  }

  lemma ReadShortId(id: nat, length: nat, flags: Byte, rest: seq<Byte>)
    requires id <= 30 && length < 0x100_0000 && IsFlags(flags)
    ensures ReadIdLen(BerHeader(id, length, flags) + rest)
      == Some(Head(id, length, flags, |BerHeader(id, length, flags)|))
  {
    ReadLengthBack(IdBytes(id, flags), length, rest, id, flags);
    assert BerHeader(id, length, flags) + rest == IdBytes(id, flags) + LengthBytes(length) + rest;
  }

  lemma LongIdFound(src: seq<Byte>, id: nat, flags: Byte, n: nat)
    requires 30 < id < 0x1000_0000 && IsFlags(flags) && flags >= 0x80 && n == DigitCount(id, false, 1)
    requires |src| > n && src[..n + 1] == [OrLow(flags, 31)] + DigitBytes(id, false, n)
    ensures IdLoop(src, 0, 0) == Some((id, n))
  {
    assert src[0] == src[..n + 1][0];
    assert src[1..1 + n] == src[..n + 1][1..];
    IdLoopDigits(src, 0, id, n);
  }

  lemma ReadLongId(id: nat, length: nat, flags: Byte, rest: seq<Byte>)
    requires 30 < id < 0x1000_0000 && length < 0x100_0000 && IsFlags(flags) && flags >= 0x80
    ensures ReadIdLen(BerHeader(id, length, flags) + rest)
      == Some(Head(id, length, flags, |BerHeader(id, length, flags)|))
  {
    var lead, tail := IdBytes(id, flags), LengthBytes(length) + rest;
    var src := BerHeader(id, length, flags) + rest;
    var n := DigitCount(id, false, 1);
    assert src == lead + tail && src == lead + LengthBytes(length) + rest;
    LongIdFound(lead + tail, id, flags, n);
    ReadLengthBack(lead, length, rest, id, flags);
  }

  /** For the other classes the loop stops at once and the identifier is taken to be 0. */
  lemma LongIdLost(id: nat, length: nat, flags: Byte, rest: seq<Byte>)
    requires 30 < id && length < 0x100_0000 && IsFlags(flags) && flags < 0x80
    ensures var r := ReadIdLen(BerHeader(id, length, flags) + rest); r.Some? ==> r.value.id == 0
  {
    var src := BerHeader(id, length, flags) + rest;
    assert src[0] == OrLow(flags, 31);
    assert IdLoop(src, 0, 0) == Some((0, 0));
  }

  /** A header reads back exactly for the short identifiers and for the classes that set the top bit. */
  lemma HeaderReadsBackIff(id: nat, length: nat, flags: Byte, rest: seq<Byte>)
    requires id < 0x1000_0000 && length < 0x100_0000 && IsFlags(flags)
    ensures ReadIdLen(BerHeader(id, length, flags) + rest)
      == Some(Head(id, length, flags, |BerHeader(id, length, flags)|))
      <==> id <= 30 || flags >= 0x80
  {
    if id <= 30 {
      ReadShortId(id, length, flags, rest);
    } else if flags >= 0x80 {
      ReadLongId(id, length, flags, rest);
    } else {
      LongIdLost(id, length, flags, rest);
    }
  }
}
