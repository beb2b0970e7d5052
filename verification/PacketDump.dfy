/** The hex dump of a packet in the log, with parts of it blanked or left out. */
module PacketDump {
  import opened Bytes

  datatype Kind = Emit | Blank | Omit

  /** A stretch of the packet and how it is to be shown. */
  datatype Area = Area(offset: nat, len: nat, kind: Kind)

  /** A line of the dump: the bytes from one position up to another in one row, or a count of bytes left out. */
  datatype Line = Row(from: nat, to: nat) | Gap(count: nat)

  predicate Sorted(areas: seq<Area>) {
    forall i, j :: 0 <= i < j < |areas| ==> areas[i].offset + areas[i].len <= areas[j].offset
  }

  predicate Covers(a: Area, p: nat) {
    a.offset <= p < a.offset + a.len
  }

  /** How a byte is shown: as the area that covers it says. */
  function KindAt(areas: seq<Area>, p: nat): Kind {
    if areas == [] then Emit else if Covers(areas[0], p) then areas[0].kind else KindAt(areas[1..], p)
  }

  function Kinds(areas: seq<Area>, len: nat): (ks: seq<Kind>)
    ensures |ks| == len && forall p :: 0 <= p < len ==> ks[p] == KindAt(areas, p)
  {
    seq(len, p requires 0 <= p < len => KindAt(areas, p))
  }

  // ------------------------------------------------------------------
  // The lines of the dump

  /** Where the omission that starts at `p` ends. */
  function GapEnd(ks: seq<Kind>, p: nat): (q: nat)
    requires p <= |ks|
    ensures p <= q <= |ks| && (p < |ks| && ks[p] == Omit ==> p < q)
    decreases |ks| - p
  {
    if p < |ks| && ks[p] == Omit then GapEnd(ks, p + 1) else p
  }

  /** Where the row of the byte at `p` ends: at a multiple of 16, at an omission or at the end. */
  function RowEnd(ks: seq<Kind>, p: nat): (q: nat)
    requires p < |ks|
    ensures p < q <= |ks|
    decreases |ks| - p
  {
    if (p + 1) % 16 == 0 || p + 1 == |ks| || ks[p + 1] == Omit then p + 1 else RowEnd(ks, p + 1)
  }

  function Lines(ks: seq<Kind>, p: nat): seq<Line>
    requires p <= |ks|
    decreases |ks| - p
  {
    if p == |ks| then []
    else if ks[p] == Omit then [Gap(GapEnd(ks, p) - p)] + Lines(ks, GapEnd(ks, p))
    else [Row(p, RowEnd(ks, p))] + Lines(ks, RowEnd(ks, p))
  }

  lemma {:induction false} GapEndMeans(ks: seq<Kind>, p: nat)
    requires p <= |ks|
    ensures forall i :: p <= i < GapEnd(ks, p) ==> ks[i] == Omit
    ensures GapEnd(ks, p) < |ks| ==> ks[GapEnd(ks, p)] != Omit
    decreases |ks| - p
  {
    if p < |ks| && ks[p] == Omit {
      GapEndMeans(ks, p + 1);
    }
  }

  lemma {:induction false} RowEndMeans(ks: seq<Kind>, p: nat)
    requires p < |ks| && ks[p] != Omit
    ensures forall i :: p <= i < RowEnd(ks, p) ==> ks[i] != Omit && i / 16 == p / 16
    ensures RowEnd(ks, p) % 16 == 0 || RowEnd(ks, p) == |ks| || ks[RowEnd(ks, p)] == Omit
    decreases |ks| - p
  {
    if (p + 1) % 16 != 0 && p + 1 < |ks| && ks[p + 1] != Omit {
      RowEndMeans(ks, p + 1);
    }
  }

  // ------------------------------------------------------------------
  // Each byte once

  /** How many rows show the byte at `p`. */
  function Shown(lines: seq<Line>, p: nat): nat {
    if lines == [] then 0
    else (if lines[0].Row? && lines[0].from <= p < lines[0].to then 1 else 0) + Shown(lines[1..], p)
  }

  function OmittedCount(ks: seq<Kind>, p: nat): nat
    requires p <= |ks|
    decreases |ks| - p
  {
    if p == |ks| then 0 else (if ks[p] == Omit then 1 else 0) + OmittedCount(ks, p + 1)
  }

  function Reported(lines: seq<Line>): nat {
    if lines == [] then 0 else (if lines[0].Gap? then lines[0].count else 0) + Reported(lines[1..])
  }

  lemma {:induction false} NotShownLater(ks: seq<Kind>, q: nat, p: nat)
    requires p < q <= |ks|
    ensures Shown(Lines(ks, q), p) == 0
    decreases |ks| - q
  {
    if q < |ks| {
      var next := if ks[q] == Omit then GapEnd(ks, q) else RowEnd(ks, q);
      NotShownLater(ks, next, p);
      assert Lines(ks, q)[1..] == Lines(ks, next);
    }
  }

  /** Every byte that is not left out is in exactly one row, every other one in none. */
  lemma {:induction false} ShownOnce(ks: seq<Kind>, q: nat, p: nat)
    requires q <= p < |ks|
    ensures Shown(Lines(ks, q), p) == if ks[p] == Omit then 0 else 1
    decreases |ks| - q
  {
    var next := if ks[q] == Omit then GapEnd(ks, q) else RowEnd(ks, q);
    assert Lines(ks, q)[1..] == Lines(ks, next);
    if ks[q] == Omit {
      GapEndMeans(ks, q);
    } else {
      RowEndMeans(ks, q);
    }
    if p < next {
      NotShownLater(ks, next, p);
    } else {
      ShownOnce(ks, next, p);
    }
  }

  /** A row keeps to sixteen bytes from a multiple of sixteen. */
  lemma {:induction false} RowsAreAligned(ks: seq<Kind>, q: nat, line: Line, p: nat)
    requires q <= |ks| && line in Lines(ks, q) && line.Row? && line.from <= p < line.to
    ensures p < |ks| && line.from / 16 == p / 16 && p - p % 16 == line.from - line.from % 16
    decreases |ks| - q
  {
    if q < |ks| {
      var next := if ks[q] == Omit then GapEnd(ks, q) else RowEnd(ks, q);
      if line in Lines(ks, next) {
        RowsAreAligned(ks, next, line, p);
      } else {
        RowEndMeans(ks, q);
      }
    }
  }

  lemma {:induction false} CountOfStretch(ks: seq<Kind>, p: nat, q: nat, omitted: bool)
    requires p <= q <= |ks| && forall i :: p <= i < q ==> (ks[i] == Omit) == omitted
    ensures OmittedCount(ks, p) == (if omitted then q - p else 0) + OmittedCount(ks, q)
    decreases q - p
  {
    if p < q {
      CountOfStretch(ks, p + 1, q, omitted);
    }
  }

  /** The reported counts come to the number of bytes left out. */
  lemma {:induction false} ReportedCountsSum(ks: seq<Kind>, q: nat)
    requires q <= |ks|
    ensures Reported(Lines(ks, q)) == OmittedCount(ks, q)
    decreases |ks| - q
  {
    if q < |ks| {
      var next := if ks[q] == Omit then GapEnd(ks, q) else RowEnd(ks, q);
      assert Lines(ks, q)[1..] == Lines(ks, next);
      if ks[q] == Omit {
        GapEndMeans(ks, q);
      } else {
        RowEndMeans(ks, q);
      }
      CountOfStretch(ks, q, next, ks[q] == Omit);
      ReportedCountsSum(ks, next);
    }
  }

  // ------------------------------------------------------------------
  // The text of a line

  const HEX: nat := 12
  const ASCII: nat := 61
  const WIDTH: nat := 77

  function LowerHex(n: nat): char
    requires n < 16
  {
    "0123456789abcdef"[n]
  }

  function Decimal(n: nat): string {
    (if n < 10 then "" else Decimal(n / 10)) + ["0123456789"[n % 10]]
  }

  /** The high or low digit shown for a byte, an X if it is blanked. */
  function DigitOf(kind: Kind, b: Byte, high: bool): char {
    if kind == Blank then 'X' else if high then LowerHex(b / 16) else LowerHex(b % 16)
  }

  function CharOf(kind: Kind, b: Byte): char {
    if kind == Blank then 'X' else if 32 <= b <= 126 then b as char else '.'
  }

  /** The column of the dump that a character position belongs to, and the digit, or the text at the right. */
  datatype Place = Margin | High(column: nat) | Low(column: nat) | Letter(column: nat)

  function PlaceOf(i: nat): (place: Place)
    ensures !place.Margin? ==> place.column < 16
  {
    if HEX <= i < HEX + 48 && (i - HEX) % 3 == 0 then High((i - HEX) / 3)
    else if HEX <= i < HEX + 48 && (i - HEX) % 3 == 1 then Low((i - HEX) / 3)
    else if ASCII <= i < WIDTH then Letter(i - ASCII)
    else Margin
  }

  function Address(row: nat): (s: string)
    ensures |s| == 10
  {
    "  " + seq(8, i requires 0 <= i < 8 => LowerHex(row / Power16(7 - i) % 16))
  }

  function Power16(n: nat): (p: nat)
    ensures p > 0
  {
    if n == 0 then 1 else 16 * Power16(n - 1)
  }

  /** The character at position `i` of the row that shows the bytes from `from` up to `to`. */
  function RowChar(ks: seq<Kind>, data: seq<Byte>, from: nat, to: nat, i: nat): char
    requires from <= to <= |ks| == |data|
  {
    var row := from - from % 16;
    if i < 10 then Address(row)[i]
    else
      var place := PlaceOf(i);
      if place.Margin? then ' '
      else
        var p := row + place.column;
        if !(from <= p < to) then ' '
        else if place.High? then DigitOf(ks[p], data[p], true)
        else if place.Low? then DigitOf(ks[p], data[p], false)
        else CharOf(ks[p], data[p])
  }

  /** The text of a row ends after its last character at the right. */
  function RowText(ks: seq<Kind>, data: seq<Byte>, from: nat, to: nat): string
    requires from < to <= |ks| == |data|
  {
    seq(ASCII + (to - 1) % 16 + 1, i requires 0 <= i => RowChar(ks, data, from, to, i)) + "\r\n"
  }

  function GapText(count: nat): string {
    "  (" + Decimal(count) + " byte" + (if count == 1 then "" else "s") + " omitted)\r\n"
  }

  function Texts(ks: seq<Kind>, data: seq<Byte>, p: nat): seq<string>
    requires p <= |ks| == |data|
    decreases |ks| - p
  {
    if p == |ks| then []
    else if ks[p] == Omit then [GapText(GapEnd(ks, p) - p)] + Texts(ks, data, GapEnd(ks, p))
    else [RowText(ks, data, p, RowEnd(ks, p))] + Texts(ks, data, RowEnd(ks, p))
  }

  function LineText(ks: seq<Kind>, data: seq<Byte>, line: Line): string
    requires |ks| == |data| && (line.Row? ==> line.from < line.to <= |ks|)
  {
    match line
    case Gap(count) => GapText(count)
    case Row(from, to) => RowText(ks, data, from, to)
  }

  /** The dump is the texts of the lines, one by one. */
  lemma {:induction false} TextsOfLines(ks: seq<Kind>, data: seq<Byte>, p: nat)
    requires p <= |ks| == |data|
    ensures |Texts(ks, data, p)| == |Lines(ks, p)|
    ensures forall i :: 0 <= i < |Lines(ks, p)| ==>
      && (Lines(ks, p)[i].Row? ==> Lines(ks, p)[i].from < Lines(ks, p)[i].to <= |ks|)
      && Texts(ks, data, p)[i] == LineText(ks, data, Lines(ks, p)[i])
    decreases |ks| - p
  {
    hide RowText, GapText;
    if p < |ks| {
      TextsOfLines(ks, data, if ks[p] == Omit then GapEnd(ks, p) else RowEnd(ks, p));
    }
  }

  /** A row shows each of its bytes in the byte's own column, in hex and at the right. */
  lemma RowShowsByte(ks: seq<Kind>, data: seq<Byte>, from: nat, to: nat, p: nat)
    requires from <= p < to <= |ks| == |data| && from / 16 == p / 16 == (to - 1) / 16
    ensures var c, text := p % 16, RowText(ks, data, from, to);
      && |text| > ASCII + c
      && text[HEX + 3 * c] == DigitOf(ks[p], data[p], true)
      && text[HEX + 3 * c + 1] == DigitOf(ks[p], data[p], false)
      && text[ASCII + c] == CharOf(ks[p], data[p])
  {
    hide Address;
    var c := p % 16;
    PlaceOfColumn(c);
    assert from - from % 16 + c == p;
  }

  lemma PlaceOfColumn(c: nat)
    requires c < 16
    ensures PlaceOf(HEX + 3 * c) == High(c) && PlaceOf(HEX + 3 * c + 1) == Low(c) && PlaceOf(ASCII + c) == Letter(c)
  {
  }

  // ------------------------------------------------------------------
  // What is not shown does not matter

  predicate SameShown(ks: seq<Kind>, a: seq<Byte>, b: seq<Byte>) {
    |ks| == |a| == |b| && forall p :: 0 <= p < |ks| ==> ks[p] == Emit ==> a[p] == b[p]
  }

  lemma SameRowText(ks: seq<Kind>, a: seq<Byte>, b: seq<Byte>, from: nat, to: nat)
    requires SameShown(ks, a, b) && from < to <= |ks|
    requires forall p :: from <= p < to ==> ks[p] != Omit
    ensures RowText(ks, a, from, to) == RowText(ks, b, from, to)
  {
    hide Address;
    forall i: nat
      ensures RowChar(ks, a, from, to, i) == RowChar(ks, b, from, to, i)
    {
    }
  }

  /** Packets that differ only in bytes blanked or left out have the same dump. */
  lemma {:induction false} HiddenBytesDoNotMatter(ks: seq<Kind>, a: seq<Byte>, b: seq<Byte>, p: nat)
    requires SameShown(ks, a, b) && p <= |ks|
    ensures Texts(ks, a, p) == Texts(ks, b, p)
    decreases |ks| - p
  {
    hide RowText, GapText;
    if p < |ks| {
      if ks[p] == Omit {
        HiddenBytesDoNotMatter(ks, a, b, GapEnd(ks, p));
      } else {
        RowEndMeans(ks, p);
        SameRowText(ks, a, b, p, RowEnd(ks, p));
        HiddenBytesDoNotMatter(ks, a, b, RowEnd(ks, p));
      }
    }
  }

  // ------------------------------------------------------------------
  // The loop

  lemma {:induction false} GapEndIs(ks: seq<Kind>, p: nat, q: nat)
    requires p <= q <= |ks| && forall i :: p <= i < q ==> ks[i] == Omit
    requires q < |ks| ==> ks[q] != Omit
    ensures GapEnd(ks, p) == q
    decreases q - p
  {
    if p < q {
      GapEndIs(ks, p + 1, q);
    }
  }

  lemma {:induction false} RowEndIs(ks: seq<Kind>, p: nat, q: nat)
    requires p < q <= |ks| && forall i :: p <= i < q ==> ks[i] != Omit && i / 16 == p / 16
    requires q % 16 == 0 || q == |ks| || ks[q] == Omit
    ensures RowEnd(ks, p) == q
    decreases q - p
  {
    if p + 1 < q {
      assert ks[p + 1] != Omit && (p + 1) / 16 == p / 16;
      RowEndIs(ks, p + 1, q);
    }
  }

  /** Later areas do not cover a byte that comes before the end of an earlier one. */
  lemma {:induction false} NoneCovers(areas: seq<Area>, p: nat)
    requires forall i :: 0 <= i < |areas| ==> p < areas[i].offset
    ensures KindAt(areas, p) == Emit
  {
    if areas != [] {
      NoneCovers(areas[1..], p);
    }
  }

  lemma KindOfNext(areas: seq<Area>, p: nat)
    requires areas != [] && Sorted(areas) && p < areas[0].offset + areas[0].len
    ensures KindAt(areas, p) == if Covers(areas[0], p) then areas[0].kind else Emit
  {
    forall i | 0 <= i < |areas[1..]|
      ensures p < areas[1..][i].offset
    {
      assert areas[0].offset + areas[0].len <= areas[i + 1].offset;
    }
    NoneCovers(areas[1..], p);
  }

  lemma {:induction false} PassedDoNotCover(areas: seq<Area>, b: nat, p: nat)
    requires b <= |areas| && forall i :: 0 <= i < b ==> areas[i].offset + areas[i].len <= p
    ensures KindAt(areas, p) == KindAt(areas[b..], p)
  {
    if b > 0 {
      assert areas[1..][b - 1..] == areas[b..];
      PassedDoNotCover(areas[1..], b - 1, p);
    }
  }

  /** Moves on to the area that may cover the byte at `p`, and tells how the byte is to be shown. */
  method Classify(areas: seq<Area>, b: nat, p: nat) returns (next: nat, kind: Kind)
    requires Sorted(areas) && b <= |areas|
    requires forall i :: 0 <= i < b ==> areas[i].offset + areas[i].len <= p
    ensures b <= next <= |areas| && forall i :: 0 <= i < next ==> areas[i].offset + areas[i].len <= p
    ensures kind == KindAt(areas, p)
  {
    next := b;
    while next < |areas| && p >= areas[next].offset + areas[next].len
      invariant b <= next <= |areas| && forall i :: 0 <= i < next ==> areas[i].offset + areas[i].len <= p
    {
      next := next + 1;
    }
    kind := Emit;
    if next < |areas| && p >= areas[next].offset && p < areas[next].offset + areas[next].len {
      kind := areas[next].kind;
    }
    PassedDoNotCover(areas, next, p);
    if next < |areas| {
      KindOfNext(areas[next..], p);
    }
  }

  /** `dump` holds the row of the bytes from `from` up to `to`, blank where no byte is shown yet. */
  ghost predicate HoldsRow(dump: seq<char>, ks: seq<Kind>, data: seq<Byte>, from: nat, to: nat) {
    && from <= to <= |ks| == |data|
    && |dump| >= WIDTH
    && forall i :: 0 <= i < WIDTH ==> dump[i] == RowChar(ks, data, from, to, i)
  }

  method StartRow(dump: array<char>, ghost ks: seq<Kind>, ghost data: seq<Byte>, p: nat)
    requires dump.Length == 80 && p <= |ks| == |data|
    modifies dump
    ensures HoldsRow(dump[..], ks, data, p, p)
  {
    hide Address;
    var address := Address(p - p % 16);
    forall i | 0 <= i < WIDTH {
      dump[i] := if i < 10 then address[i] else ' ';
    }
  }

  lemma RowGrows(ks: seq<Kind>, data: seq<Byte>, from: nat, p: nat, i: nat)
    requires from <= p < |ks| == |data| && from / 16 == p / 16
    ensures RowChar(ks, data, from, p + 1, i)
         == if i == HEX + 3 * (p % 16) then DigitOf(ks[p], data[p], true)
            else if i == HEX + 3 * (p % 16) + 1 then DigitOf(ks[p], data[p], false)
            else if i == ASCII + p % 16 then CharOf(ks[p], data[p])
            else RowChar(ks, data, from, p, i)
  {
    hide Address, DigitOf, CharOf;
    var c := p % 16;
    PlaceOfColumn(c);
    assert from - from % 16 + c == p;
    if PlaceOf(i) == High(c) || PlaceOf(i) == Low(c) || PlaceOf(i) == Letter(c) {
      ColumnOfPlace(i, c);
    }
  }

  lemma ColumnOfPlace(i: nat, c: nat)
    requires PlaceOf(i) == High(c) || PlaceOf(i) == Low(c) || PlaceOf(i) == Letter(c)
    ensures PlaceOf(i) == High(c) ==> i == HEX + 3 * c
    ensures PlaceOf(i) == Low(c) ==> i == HEX + 3 * c + 1
    ensures PlaceOf(i) == Letter(c) ==> i == ASCII + c
  {
  }

  /** Puts the byte at `p` into its column. */
  method PutByte(dump: array<char>, ghost ks: seq<Kind>, data: seq<Byte>, ghost from: nat, p: nat, kind: Kind)
    requires dump.Length == 80 && from <= p < |ks| == |data| && from / 16 == p / 16 && kind == ks[p] != Omit
    requires HoldsRow(dump[..], ks, data, from, p)
    modifies dump
    ensures HoldsRow(dump[..], ks, data, from, p + 1)
  {
    var column := p % 16;
    var high, low, c := 'X', 'X', 'X';
    if kind == Emit {
      high, low := LowerHex(data[p] / 16), LowerHex(data[p] % 16);
      c := if 32 <= data[p] <= 126 then data[p] as char else '.';
    }
    assert high == DigitOf(kind, data[p], true) && low == DigitOf(kind, data[p], false) && c == CharOf(kind, data[p]);
    hide RowChar, DigitOf, CharOf;
    dump[HEX + 3 * column] := high;
    dump[HEX + 3 * column + 1] := low;
    dump[ASCII + column] := c;
    forall i: nat | i < WIDTH
      ensures dump[..][i] == RowChar(ks, data, from, p + 1, i)
    {
      RowGrows(ks, data, from, p, i);
      assert dump[..][i] == dump[i] && old(dump[..])[i] == old(dump[i]);
    }
  }

  /** The finished row, cut off after its last character. */
  method RowOut(dump: array<char>, ghost ks: seq<Kind>, ghost data: seq<Byte>, ghost from: nat, ghost to: nat,
                outputPos: nat)
    returns (text: string)
    requires dump.Length == 80 && from < to <= |ks| == |data| && outputPos == (to - 1) % 16 + 1
    requires HoldsRow(dump[..], ks, data, from, to)
    ensures text == RowText(ks, data, from, to)
  {
    hide RowChar;
    text := dump[..ASCII + outputPos] + "\r\n";
    assert forall i :: 0 <= i < ASCII + outputPos ==> dump[..ASCII + outputPos][i] == dump[..][i];
  }

  /** What is under way at `p` since `start`: an omission, a row, or neither. */
  ghost predicate UnderWay(ks: seq<Kind>, start: nat, p: nat, omitted: nat, outputPos: nat) {
    && start <= p <= |ks|
    && (omitted > 0 ==>
          outputPos == 0 && omitted == p - start && forall i :: start <= i < p ==> ks[i] == Omit)
    && (omitted == 0 && outputPos == 0 ==> start == p)
    && (outputPos > 0 ==>
          && start < p < |ks| && outputPos == p % 16 && start / 16 == p / 16
          && forall i :: start <= i < p ==> ks[i] != Omit && i / 16 == start / 16)
  }

  /** Dumps the packet row by row. */
  method Dump(data: seq<Byte>, areas: seq<Area>) returns (out: seq<string>)
    requires Sorted(areas)
    ensures out == Texts(Kinds(areas, |data|), data, 0)
  {
    hide Texts, RowText, GapText, RowChar, Kinds, KindAt, HoldsRow, Covers;
    ghost var ks := Kinds(areas, |data|);
    var dump := new char[80];
    var p, b, omitted, outputPos: nat := 0, 0, 0, 0;
    ghost var start: nat := 0;
    out := [];
    while p < |data|
      invariant b <= |areas| && forall i :: 0 <= i < b ==> areas[i].offset + areas[i].len <= p
      invariant UnderWay(ks, start, p, omitted, outputPos)
      invariant outputPos > 0 ==> HoldsRow(dump[..], ks, data, start, p)
      invariant out + Texts(ks, data, start) == Texts(ks, data, 0)
    {
      var kind;
      b, kind := Classify(areas, b, p);
      if kind != Omit && omitted > 0 {
        GapDone(ks, data, start, p, out);
        out := out + [GapText(omitted)];
        omitted := 0;
        start := p;
      }
      if outputPos == 0 && omitted == 0 {
        StartRow(dump, ks, data, p);
      }
      if kind == Omit {
        omitted := omitted + 1;
      } else {
        PutByte(dump, ks, data, start, p, kind);
        outputPos := p % 16 + 1;
      }
      ghost var end := if kind == Omit then p else p + 1;
      p := p + 1;
      if p % 16 == 0 || p == |data| || omitted > 0 {
        if outputPos > 0 {
          RowDone(ks, data, start, end, out);
          var text := RowOut(dump, ks, data, start, end, outputPos);
          out := out + [text];
          outputPos := 0;
          start := end;
        }
      }
    }
    if omitted > 0 {
      GapDone(ks, data, start, p, out);
      out := out + [GapText(omitted)];
      start := p;
    }
    NothingLeft(ks, data, start, out);
  }

  lemma GapDone(ks: seq<Kind>, data: seq<Byte>, start: nat, p: nat, out: seq<string>)
    requires start < p <= |ks| == |data| && forall i :: start <= i < p ==> ks[i] == Omit
    requires p < |ks| ==> ks[p] != Omit
    ensures out + Texts(ks, data, start) == out + [GapText(p - start)] + Texts(ks, data, p)
  {
    hide GapText, Texts;
    TextsOfGap(ks, data, start, p);
    ConcatAssoc(out, [GapText(p - start)], Texts(ks, data, p));
  }

  lemma TextsOfGap(ks: seq<Kind>, data: seq<Byte>, start: nat, p: nat)
    requires start < p <= |ks| == |data| && forall i :: start <= i < p ==> ks[i] == Omit
    requires p < |ks| ==> ks[p] != Omit
    ensures Texts(ks, data, start) == [GapText(p - start)] + Texts(ks, data, p)
  {
    hide GapText, RowText;
    GapEndIs(ks, start, p);
  }

  lemma RowDone(ks: seq<Kind>, data: seq<Byte>, start: nat, q: nat, out: seq<string>)
    requires start < q <= |ks| == |data| && forall i :: start <= i < q ==> ks[i] != Omit && i / 16 == start / 16
    requires q % 16 == 0 || q == |ks| || ks[q] == Omit
    ensures out + Texts(ks, data, start) == out + [RowText(ks, data, start, q)] + Texts(ks, data, q)
  {
    hide RowText, Texts;
    TextsOfRow(ks, data, start, q);
    ConcatAssoc(out, [RowText(ks, data, start, q)], Texts(ks, data, q));
  }

  lemma TextsOfRow(ks: seq<Kind>, data: seq<Byte>, start: nat, q: nat)
    requires start < q <= |ks| == |data| && forall i :: start <= i < q ==> ks[i] != Omit && i / 16 == start / 16
    requires q % 16 == 0 || q == |ks| || ks[q] == Omit
    ensures Texts(ks, data, start) == [RowText(ks, data, start, q)] + Texts(ks, data, q)
  {
    hide GapText, RowText;
    RowEndIs(ks, start, q);
  }

  lemma NothingLeft(ks: seq<Kind>, data: seq<Byte>, p: nat, out: seq<string>)
    requires p == |ks| == |data|
    ensures out + Texts(ks, data, p) == out
  {
  }
}
