/**
 Base64 in key files (section 4 of RFC 4648): the encoder breaks its lines anywhere, even
 inside a group of four characters, and the loaders put the groups together again.
 */
module Base64 {
  import opened Bytes

  /** The character for a six-bit value. */
  function Char64(v: nat): (c: char)
    requires v < 64
  {
    if v < 26 then 'A' + v as char
    else if v < 52 then 'a' + (v - 26) as char
    else if v < 62 then '0' + (v - 52) as char
    else if v == 62 then '+' else '/'
  }

  /** The value of a character: -1 for the padding character, -2 for anything else. */
  function Value64(c: char): (v: int)
    ensures -2 <= v < 64
  {
    if 'A' <= c <= 'Z' then c as int - 'A' as int
    else if 'a' <= c <= 'z' then c as int - 'a' as int + 26
    else if '0' <= c <= '9' then c as int - '0' as int + 52
    else if c == '+' then 62
    else if c == '/' then 63
    else if c == '=' then -1
    else -2
  }

  predicate IsBase64(c: char) {
    Value64(c) != -2
  }

  lemma CharValue(v: nat)
    requires v < 64
    ensures Value64(Char64(v)) == v
  {
  }

  /** The 24 bits of up to three bytes. */
  function Word(data: seq<Byte>): (w: nat)
    requires 1 <= |data| <= 3
    ensures w < 0x100_0000
  {
    var d0: nat, d1: nat, d2: nat :=
      data[0], if |data| > 1 then data[1] else 0, if |data| > 2 then data[2] else 0;
    0x1_0000 * d0 + 0x100 * d1 + d2
  }

  function EncodeAtom(data: seq<Byte>): (r: seq<char>)
    requires 1 <= |data| <= 3
    ensures |r| == 4
  {
    var w := Word(data);
    [Char64(w / 0x4_0000 % 64), Char64(w / 0x1000 % 64),
     if |data| > 1 then Char64(w / 64 % 64) else '=',
     if |data| > 2 then Char64(w % 64) else '=']
  }

  /** The bytes of a group of four, none at all if it is not one. */
  function DecodeAtom(atom: seq<char>): (r: seq<Byte>)
    requires |atom| == 4
    ensures |r| <= 3
  {
    var v0, v1, v2, v3 := Value64(atom[0]), Value64(atom[1]), Value64(atom[2]), Value64(atom[3]);
    if v0 == -2 || v1 == -2 || v2 == -2 || v3 == -2 then []
    else if v0 == -1 || v1 == -1 then []
    else if v2 == -1 && v3 != -1 then []
    else
      var word := 0x4_0000 * v0 + 0x1000 * v1 + 64 * LowSix(v2) + LowSix(v3);
      var out: seq<Byte> := [word / 0x1_0000 % 256, word / 0x100 % 256, word % 256];
      out[..if v3 != -1 then 3 else if v2 != -1 then 2 else 1]
  }

  /** `v & 0x3F`, which turns the -1 of a padding character into 63. */
  function LowSix(v: int): (m: nat)
    requires -1 <= v < 64
    ensures m < 64
  {
    if v == -1 then 63 else v
  }

  lemma SixBits(w: nat)
    requires w < 0x100_0000
    ensures w == 0x4_0000 * (w / 0x4_0000 % 64) + 0x1000 * (w / 0x1000 % 64) + 64 * (w / 64 % 64) + w % 64
  {
    var a, b, c := w / 64, w / 0x1000, w / 0x4_0000;
    assert a == 64 * b + a % 64 && b == 64 * c + b % 64 && c % 64 == c;
    assert w == 64 * a + w % 64;
  }

  lemma AtomBack(data: seq<Byte>)
    requires 1 <= |data| <= 3
    ensures DecodeAtom(EncodeAtom(data)) == data
  {
    hide Char64, Value64;
    var w := Word(data);
    SixBits(w);
    CharValue(w / 0x4_0000 % 64);
    CharValue(w / 0x1000 % 64);
    CharValue(w / 64 % 64);
    CharValue(w % 64);
    assert Value64('=') == -1 by {
      PaddingValue();
    }
    AtomBytes(data);
  }

  lemma PaddingValue()
    ensures Value64('=') == -1
  {
  }

  /** The bytes sit in the upper bits of the word, whatever the padding leaves in the lower ones. */
  lemma AtomBytes(data: seq<Byte>)
    requires 1 <= |data| <= 3
    ensures var w := Word(data); var low := if |data| == 1 then 0xfff else if |data| == 2 then 63 else 0;
      && (w + low) / 0x1_0000 % 256 == data[0]
      && (|data| > 1 ==> (w + low) / 0x100 % 256 == data[1])
      && (|data| > 2 ==> (w + low) % 256 == data[2])
      && (|data| == 1 ==> w / 64 % 64 == 0)
      && (|data| <= 2 ==> w % 64 == 0)
  {
    if |data| == 1 {
      ThreeBytes(data[0], 15, 255);
      ThreeBytes(data[0], 0, 0);
    } else if |data| == 2 {
      ThreeBytes(data[0], data[1], 63);
      ThreeBytes(data[0], data[1], 0);
    } else {
      ThreeBytes(data[0], data[1], data[2]);
    }
  }

  lemma ThreeBytes(a: nat, b: nat, c: nat)
    requires a < 256 && b < 256 && c < 256
    ensures var w := 0x1_0000 * a + 0x100 * b + c;
      && w / 0x1_0000 % 256 == a && w / 0x100 % 256 == b && w % 256 == c
      && (b == 0 && c == 0 ==> w / 64 % 64 == 0) && (c == 0 ==> w % 64 == 0)
  {
    var w := 0x1_0000 * a + 0x100 * b + c;
    assert w / 0x100 == 0x100 * a + b;
    assert w / 0x1_0000 == a;
    if c == 0 {
      assert w == 64 * (4 * (0x100 * a + b));
      assert w / 64 == 4 * (0x100 * a + b);
    }
    if b == 0 && c == 0 {
      assert w / 64 == 64 * (16 * a);
    }
  }

  // ------------------------------------------------------------------
  // Whole bodies

  /** All the groups of some data. */
  function EncodeAll(data: seq<Byte>): (r: seq<char>) {
    if data == [] then []
    else
      var n := if |data| < 3 then |data| else 3;
      EncodeAtom(data[..n]) + EncodeAll(data[n..])
  }

  /** `blob` and the bytes of the groups in `chars`; an incomplete group at the end is ignored. */
  function Decode(chars: seq<char>, blob: seq<Byte>): Option<seq<Byte>> {
    if |chars| < 4 then Some(blob)
    else
      var out := DecodeAtom(chars[..4]);
      if out == [] then None else Decode(chars[4..], blob + out)
  }

  lemma {:induction false} DecodeEncodeAll(data: seq<Byte>, blob: seq<Byte>)
    ensures Decode(EncodeAll(data), blob) == Some(blob + data)
  {
    hide EncodeAtom, DecodeAtom;
    if data == [] {
      assert blob + data == blob;
    } else {
      var n := if |data| < 3 then |data| else 3;
      var atom, rest := EncodeAtom(data[..n]), EncodeAll(data[n..]);
      assert (atom + rest)[..4] == atom && (atom + rest)[4..] == rest;
      AtomBack(data[..n]);
      DecodeEncodeAll(data[n..], blob + data[..n]);
      assert blob + data[..n] + data[n..] == blob + data;
    }
  }

  lemma {:induction false} EncodeAllIsBase64(data: seq<Byte>)
    ensures forall c :: c in EncodeAll(data) ==> IsBase64(c)
  {
    if data != [] {
      var n := if |data| < 3 then |data| else 3;
      AtomIsBase64(data[..n]);
      EncodeAllIsBase64(data[n..]);
    }
  }

  lemma AtomIsBase64(data: seq<Byte>)
    requires 1 <= |data| <= 3
    ensures forall c :: c in EncodeAtom(data) ==> IsBase64(c)
  {
    var w := Word(data);
    CharValue(w / 0x4_0000 % 64);
    CharValue(w / 0x1000 % 64);
    CharValue(w / 64 % 64);
    CharValue(w % 64);
  }

  // ------------------------------------------------------------------
  // The encoder with its line breaks

  /** A text without its line breaks. */
  function Unbroken(s: seq<char>): seq<char> {
    if s == [] then []
    else if s[|s| - 1] == '\n' then Unbroken(s[..|s| - 1])
    else Unbroken(s[..|s| - 1]) + [s[|s| - 1]]
  }

  /** The number of characters since the last line break. */
  function LineLength(s: seq<char>): nat {
    if s == [] || s[|s| - 1] == '\n' then 0 else 1 + LineLength(s[..|s| - 1])
  }

  /** No line is longer than `cpl`. */
  predicate LinesFit(s: seq<char>, cpl: nat) {
    forall i :: 0 <= i <= |s| ==> LineLength(s[..i]) <= cpl
  }

  /** A line is ended only when it has `cpl` characters. */
  predicate BreaksWhenFull(s: seq<char>, cpl: nat) {
    forall i :: 0 <= i < |s| && s[i] == '\n' ==> LineLength(s[..i]) == cpl
  }

  lemma OneMoreBreak(s: seq<char>, c: char, cpl: nat)
    requires BreaksWhenFull(s, cpl) && (c == '\n' ==> LineLength(s) == cpl)
    ensures BreaksWhenFull(s + [c], cpl)
  {
    hide LineLength;
    var t := s + [c];
    assert t[..|s|] == s;
    forall i | 0 <= i < |t| && t[i] == '\n'
      ensures LineLength(t[..i]) == cpl
    {
      if i < |s| {
        assert t[..i] == s[..i];
      }
    }
  }

  lemma NoLineIsLonger(s: seq<char>, cpl: nat)
    requires LinesFit(s, cpl)
    ensures LineLength(s) <= cpl
  {
    assert s[..|s|] == s;
  }

  lemma OneMoreChar(s: seq<char>, c: char, cpl: nat)
    requires LinesFit(s, cpl)
    requires c == '\n' || LineLength(s) < cpl
    ensures LinesFit(s + [c], cpl)
    ensures Unbroken(s + [c]) == if c == '\n' then Unbroken(s) else Unbroken(s) + [c]
    ensures LineLength(s + [c]) == if c == '\n' then 0 else LineLength(s) + 1
  {
    var t := s + [c];
    assert t[..|s|] == s;
    forall i | 0 <= i <= |t|
      ensures LineLength(t[..i]) <= cpl
    {
      if i <= |s| {
        assert t[..i] == s[..i];
      } else {
        assert t[..i] == t;
      }
    }
  }

  /** Puts one character, after a line break if the line is full. */
  method PutChar(out: seq<char>, linelen: nat, c: char, cpl: nat) returns (out': seq<char>, linelen': nat)
    requires cpl > 0 && linelen == LineLength(out) && LinesFit(out, cpl) && BreaksWhenFull(out, cpl) && c != '\n'
    ensures linelen' == LineLength(out') && LinesFit(out', cpl) && BreaksWhenFull(out', cpl)
    ensures Unbroken(out') == Unbroken(out) + [c]
  {
    hide LineLength, LinesFit, Unbroken, BreaksWhenFull;
    out', linelen' := out, linelen;
    NoLineIsLonger(out, cpl);
    if linelen' >= cpl {
      OneMoreChar(out', '\n', cpl);
      OneMoreBreak(out', '\n', cpl);
      linelen', out' := 0, out' + ['\n'];
    }
    OneMoreChar(out', c, cpl);
    OneMoreBreak(out', c, cpl);
    out', linelen' := out' + [c], linelen' + 1;
  }

  /** The four characters of a group, which may go on two lines. */
  method PutAtom(out: seq<char>, linelen: nat, atom: seq<char>, cpl: nat) returns (out': seq<char>, linelen': nat)
    requires cpl > 0 && linelen == LineLength(out) && LinesFit(out, cpl) && BreaksWhenFull(out, cpl)
    requires |atom| == 4 && forall c :: c in atom ==> IsBase64(c)
    ensures linelen' == LineLength(out') && LinesFit(out', cpl) && BreaksWhenFull(out', cpl)
    ensures Unbroken(out') == Unbroken(out) + atom
  {
    hide LinesFit, Unbroken, LineLength, BreaksWhenFull;
    out', linelen' := out, linelen;
    var i := 0;
    while i < 4
      invariant 0 <= i <= 4 && linelen' == LineLength(out') && LinesFit(out', cpl) && BreaksWhenFull(out', cpl)
      invariant Unbroken(out') == Unbroken(out) + atom[..i]
    {
      NotLineBreak(atom[i]);
      assert atom[..i + 1] == atom[..i] + [atom[i]];
      out', linelen' := PutChar(out', linelen', atom[i], cpl);
      i := i + 1;
    }
    assert atom[..4] == atom;
  }

  method Base64Encode(data: seq<Byte>, cpl: nat) returns (out: seq<char>)
    requires cpl > 0
    ensures Unbroken(out) == EncodeAll(data) && LinesFit(out, cpl)
    ensures out != [] && out[|out| - 1] == '\n' && BreaksWhenFull(out[..|out| - 1], cpl)
  {
    hide LinesFit, Unbroken, EncodeAtom, EncodeAll, LineLength, BreaksWhenFull;
    EmptyText(cpl);
    out := [];
    var linelen, pos := 0, 0;
    assert data[0..] == data;
    while pos < |data|
      invariant 0 <= pos <= |data| && linelen == LineLength(out) && LinesFit(out, cpl) && BreaksWhenFull(out, cpl)
      invariant Unbroken(out) + EncodeAll(data[pos..]) == EncodeAll(data)
    {
      var n := if |data| - pos < 3 then |data| - pos else 3;
      var atom := EncodeAtom(data[pos..pos + n]);
      AtomIsBase64(data[pos..pos + n]);
      FirstAtom(data, pos, n);
      ConcatAssoc(Unbroken(out), atom, EncodeAll(data[pos + n..]));
      out, linelen := PutAtom(out, linelen, atom, cpl);
      pos := pos + n;
    }
    NothingLeft(data);
    assert Unbroken(out) + [] == Unbroken(out);
    OneMoreChar(out, '\n', cpl);
    assert (out + ['\n'])[..|out|] == out;
    out := out + ['\n'];
  }

  lemma FirstAtom(data: seq<Byte>, pos: nat, n: nat)
    requires pos < |data| && n == if |data| - pos < 3 then |data| - pos else 3
    ensures EncodeAll(data[pos..]) == EncodeAtom(data[pos..pos + n]) + EncodeAll(data[pos + n..])
  {
    hide EncodeAtom;
    assert data[pos..][..n] == data[pos..pos + n] && data[pos..][n..] == data[pos + n..];
  }

  lemma NothingLeft(data: seq<Byte>)
    ensures EncodeAll(data[|data|..]) == []
  {
  }

  lemma EmptyText(cpl: nat)
    ensures LinesFit([], cpl) && BreaksWhenFull([], cpl) && Unbroken([]) == [] && LineLength([]) == 0
  {
  }

  lemma NotLineBreak(c: char)
    requires IsBase64(c)
    ensures c != '\n'
  {
  }

  // ------------------------------------------------------------------
  // The loader

  /** The part of a line the loaders look at. */
  function Prefix64(line: seq<char>): (r: seq<char>) {
    if line == [] || !IsBase64(line[0]) then [] else [line[0]] + Prefix64(line[1..])
  }

  /** The characters of a body, line after line. */
  function Body(lines: seq<seq<char>>): seq<char> {
    if lines == [] then [] else Prefix64(lines[0]) + Body(lines[1..])
  }

  /** Gathers characters into groups across lines. */
  method LoadBody(lines: seq<seq<char>>) returns (blob: Option<seq<Byte>>)
    ensures blob == Decode(Body(lines), [])
  {
    hide Value64, DecodeAtom, Prefix64;
    var keyblob: seq<Byte> := [];
    var bits: seq<char> := [];
    var i := 0;
    ghost var goal := Decode(Body(lines), []);
    assert lines[0..] == lines && [] + Body(lines) == Body(lines);
    while i < |lines|
      invariant 0 <= i <= |lines| && |bits| < 4
      invariant Decode(bits + Body(lines[i..]), keyblob) == goal
    {
      ghost var later := Body(lines[i + 1..]);
      assert lines[i..][1..] == lines[i + 1..];
      assert bits + Body(lines[i..]) == bits + (Prefix64(lines[i]) + later);
      var ok: bool;
      ok, bits, keyblob := LoadLine(lines[i], bits, keyblob, later);
      if !ok {
        return None;
      }
      i := i + 1;
    }
    assert bits + [] == bits;
    return Some(keyblob);
  }

  /** One line: groups are decoded as they fill up. */
  method LoadLine(line: seq<char>, bits: seq<char>, keyblob: seq<Byte>, ghost later: seq<char>)
    returns (ok: bool, bits': seq<char>, keyblob': seq<Byte>)
    requires |bits| < 4
    ensures ok ==> |bits'| < 4
    ensures ok ==> Decode(bits' + later, keyblob') == Decode(bits + (Prefix64(line) + later), keyblob)
    ensures !ok ==> Decode(bits + (Prefix64(line) + later), keyblob) == None
  {
    hide Value64, DecodeAtom;
    ok, bits', keyblob' := true, bits, keyblob;
    var p := 0;
    ghost var goal := Decode(bits + (Prefix64(line) + later), keyblob);
    assert line[0..] == line;
    while p < |line| && IsBase64(line[p])
      invariant 0 <= p <= |line| && |bits'| < 4
      invariant Decode(bits' + (Prefix64(line[p..]) + later), keyblob') == goal
    {
      assert line[p..][1..] == line[p + 1..];
      ghost var rest := Prefix64(line[p + 1..]) + later;
      assert bits' + (Prefix64(line[p..]) + later) == (bits' + [line[p]]) + rest;
      bits' := bits' + [line[p]];
      if |bits'| == 4 {
        assert (bits' + rest)[..4] == bits' && (bits' + rest)[4..] == rest;
        var out := DecodeAtom(bits');
        if out == [] {
          return false, bits', keyblob';
        }
        keyblob' := keyblob' + out;
        bits' := [];
        assert [] + rest == rest;
      }
      p := p + 1;
    }
    assert Prefix64(line[p..]) + later == later;
  }

  // ------------------------------------------------------------------
  // The round trip

  lemma {:induction false} PrefixWhole(line: seq<char>)
    requires forall c :: c in line ==> IsBase64(c)
    ensures Prefix64(line) == line
  {
    if line != [] {
      PrefixWhole(line[1..]);
    }
  }

  lemma {:induction false} BodyIsJoin(lines: seq<seq<char>>)
    requires forall c :: c in Join(lines) ==> IsBase64(c)
    ensures Body(lines) == Join(lines)
  {
    if lines != [] {
      JoinHead(lines);
      PrefixWhole(lines[0]);
      BodyIsJoin(lines[1..]);
    }
  }

  /** However the encoded characters are cut into lines, the loaders recover the data. */
  lemma AnyLinesDecode(data: seq<Byte>, lines: seq<seq<char>>)
    requires Join(lines) == EncodeAll(data)
    ensures Decode(Body(lines), []) == Some(data)
  {
    EncodeAllIsBase64(data);
    BodyIsJoin(lines);
    DecodeEncodeAll(data, []);
    assert [] + data == data;
  }

  /** The lines of a text, each ended by a line break. */
  function Lines(s: seq<char>): (r: seq<seq<char>>)
    ensures r != []
  {
    if s == [] then [[]]
    else
      var before := Lines(s[..|s| - 1]);
      if s[|s| - 1] == '\n' then before + [[]]
      else before[|before| - 1 := before[|before| - 1] + [s[|s| - 1]]]
  }

  lemma JoinLast(lines: seq<seq<char>>, last: seq<char>)
    ensures Join(lines + [last]) == Join(lines) + last
  {
    assert (lines + [last])[..|lines|] == lines;
  }

  lemma LastLineGrows(lines: seq<seq<char>>, c: char)
    requires lines != []
    ensures Join(lines[|lines| - 1 := lines[|lines| - 1] + [c]]) == Join(lines) + [c]
  {
    var init, last := lines[..|lines| - 1], lines[|lines| - 1];
    assert lines == init + [last] && lines[|lines| - 1 := last + [c]] == init + [last + [c]];
    JoinLast(init, last + [c]);
  }

  lemma {:induction false} LinesUnbroken(s: seq<char>)
    ensures Join(Lines(s)) == Unbroken(s)
  {
    if s == [] {
      JoinHead(Lines(s));
    } else {
      hide Join;
      var before := Lines(s[..|s| - 1]);
      LinesUnbroken(s[..|s| - 1]);
      JoinLast(before, []);
      LastLineGrows(before, s[|s| - 1]);
    }
  }

  /** In particular the lines the encoder writes, whatever their length. */
  lemma EncodedFileDecodes(data: seq<Byte>, out: seq<char>)
    requires Unbroken(out) == EncodeAll(data)
    ensures Decode(Body(Lines(out)), []) == Some(data)
  {
    LinesUnbroken(out);
    AnyLinesDecode(data, Lines(out));
  }
}
