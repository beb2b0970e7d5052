/** The text of the packet dump as a reader sees it: addresses, digits, characters and counts. */
module PacketDumpText {
  import opened Bytes
  import opened PacketDump
  import Int64

  function HexDigit(c: char): nat {
    if '0' <= c <= '9' then c as int - '0' as int
    else if 'a' <= c <= 'f' then c as int - 'a' as int + 10
    else 16
  }

  predicate HexDigits(s: string) {
    forall i :: 0 <= i < |s| ==> HexDigit(s[i]) < 16
  }

  function HexValue(s: string): nat
    requires HexDigits(s)
  {
    if s == "" then 0 else 16 * HexValue(s[..|s| - 1]) + HexDigit(s[|s| - 1])
  }

  lemma LowerHexMeans(n: nat)
    requires n < 16
    ensures HexDigit(LowerHex(n)) == n
  {
    if n < 10 {
      assert LowerHex(n) as int == 48 + n;
    } else {
      assert LowerHex(n) as int == 87 + n;
    }
  }

  /** The lowest eight digits of a number, most significant first. */
  function AddressDigits(row: nat, n: nat): (s: string)
    ensures |s| == n
  {
    if n == 0 then "" else AddressDigits(row / 16, n - 1) + [LowerHex(row % 16)]
  }

  lemma {:induction false} AddressDigitsMean(row: nat, n: nat)
    requires row < Power16(n)
    ensures HexDigits(AddressDigits(row, n)) && HexValue(AddressDigits(row, n)) == row
  {
    if n > 0 {
      assert row / 16 < Power16(n - 1);
      AddressDigitsMean(row / 16, n - 1);
      LowerHexMeans(row % 16);
      assert AddressDigits(row, n)[..n - 1] == AddressDigits(row / 16, n - 1);
    }
  }

  lemma {:induction false} AddressDigitAt(row: nat, n: nat, i: nat)
    requires i < n
    ensures AddressDigits(row, n)[i] == LowerHex(row / Power16(n - 1 - i) % 16)
  {
    if i < n - 1 {
      AddressDigitAt(row / 16, n - 1, i);
      DividedTwice(row, Power16(n - 2 - i));
      assert Power16(n - 1 - i) == 16 * Power16(n - 2 - i);
    } else {
      assert Power16(0) == 1;
    }
  }

  lemma DividedTwice(a: nat, b: nat)
    requires b > 0
    ensures a / 16 / b == a / (16 * b)
  {
    var q, r := a / 16 / b, a / 16 % b;
    assert a / 16 == q * b + r;
    var s := 16 * r + a % 16;
    assert s < 16 * b;
    assert a == q * (16 * b) + s by {
      assert 16 * (q * b) == q * (16 * b);
    }
    Int64.ModuloIs(a, 16 * b, q, s);
  }

  /** The address is two spaces and the number of the first byte of the block, in eight hexadecimal digits. */
  lemma AddressMeans(row: nat)
    requires row < 0x1_0000_0000
    ensures var s := Address(row);
      s[..2] == "  " && HexDigits(s[2..]) && |s[2..]| == 8 && HexValue(s[2..]) == row
  {
    hide Address, AddressDigits, HexDigits, HexValue;
    Power16Of8();
    AddressDigitsMean(row, 8);
    AddressIs(row);
    AddressSpaces(row);
  }

  lemma AddressIs(row: nat)
    ensures Address(row)[2..] == AddressDigits(row, 8)
  {
    hide Address, AddressDigits;
    forall i: nat | i < 8
      ensures Address(row)[2..][i] == AddressDigits(row, 8)[i]
    {
      AddressAt(row, i);
      AddressDigitAt(row, 8, i);
    }
  }

  lemma AddressAt(row: nat, i: nat)
    requires i < 8
    ensures Address(row)[2..][i] == LowerHex(row / Power16(7 - i) % 16)
  {
    hide LowerHex, Power16;
  }

  lemma AddressSpaces(row: nat)
    ensures Address(row)[..2] == "  "
  {
    hide LowerHex, Power16;
  }

  lemma Power16Of8()
    ensures Power16(8) == 0x1_0000_0000
  {
    assert Power16(4) == 0x1_0000;
  }

  // ------------------------------------------------------------------
  // A row

  /** A byte in a row: its two digits, or XX when it is blanked. */
  predicate ShowsDigits(kind: Kind, b: Byte, high: char, low: char) {
    if kind == Blank then high == low == 'X' else HexDigits([high, low]) && HexValue([high, low]) == b
  }

  /** And at the right: itself if it is printable, otherwise a dot. */
  predicate ShowsCharacter(kind: Kind, b: Byte, c: char) {
    c == if kind == Blank then 'X' else if 0x20 <= b < 0x7f then b as char else '.'
  }

  lemma DigitsMean(kind: Kind, b: Byte)
    ensures ShowsDigits(kind, b, DigitOf(kind, b, true), DigitOf(kind, b, false))
  {
    hide LowerHex;
    if kind != Blank {
      var h, l := LowerHex(b / 16), LowerHex(b % 16);
      LowerHexMeans(b / 16);
      LowerHexMeans(b % 16);
      assert [h, l][..1] == [h] && [h][..0] == "";
      assert HexValue([h]) == b / 16;
    }
  }

  /**
   A row: the address, then for each column two digits and at the right a character, spaces where it
   has no byte and everywhere else, up to its last character.
   */
  lemma RowLooks(ks: seq<Kind>, data: seq<Byte>, from: nat, to: nat)
    requires from < to <= |ks| == |data| && from / 16 == (to - 1) / 16 && |data| <= 0x1_0000_0000
    ensures var text, row := RowText(ks, data, from, to), from - from % 16;
      && |text| == 61 + (to - row) + 2 && text[|text| - 2..] == "\r\n"
      && text[..2] == "  " && HexDigits(text[2..10]) && HexValue(text[2..10]) == row
      && (forall p :: from <= p < to ==>
            && ShowsDigits(ks[p], data[p], text[12 + 3 * (p - row)], text[13 + 3 * (p - row)])
            && ShowsCharacter(ks[p], data[p], text[61 + (p - row)]))
  {
    hide HexDigits, HexValue, Address, LowerHex, DigitOf, CharOf, ShowsDigits, ShowsCharacter, RowText;
    var text, row := RowText(ks, data, from, to), from - from % 16;
    RowEnds(ks, data, from, to);
    AddressShown(text, row);
    forall p | from <= p < to
      ensures ShowsDigits(ks[p], data[p], text[12 + 3 * (p - row)], text[13 + 3 * (p - row)])
      ensures ShowsCharacter(ks[p], data[p], text[61 + (p - row)])
    {
      assert p % 16 == p - row;
      RowShowsByte(ks, data, from, to, p);
      DigitsMean(ks[p], data[p]);
      CharacterMeans(ks[p], data[p]);
    }
  }

  lemma AddressShown(text: string, row: nat)
    requires row < 0x1_0000_0000 && |text| >= 10 && text[..10] == Address(row)
    ensures text[..2] == "  " && HexDigits(text[2..10]) && HexValue(text[2..10]) == row
  {
    hide HexDigits, HexValue, Address;
    AddressMeans(row);
    assert text[2..10] == Address(row)[2..] && text[..2] == Address(row)[..2];
  }

  lemma RowEnds(ks: seq<Kind>, data: seq<Byte>, from: nat, to: nat)
    requires from < to <= |ks| == |data| && from / 16 == (to - 1) / 16
    ensures var text, row := RowText(ks, data, from, to), from - from % 16;
      |text| == 61 + (to - row) + 2 && text[|text| - 2..] == "\r\n" && text[..10] == Address(row)
  {
    hide Address, DigitOf, CharOf;
    var text, row := RowText(ks, data, from, to), from - from % 16;
    assert (to - 1) % 16 + 1 == to - row;
    assert text[..10] == Address(row);
  }

  lemma CharacterMeans(kind: Kind, b: Byte)
    ensures ShowsCharacter(kind, b, CharOf(kind, b))
  {
  }

  /** Position `i` of the row that starts with the byte at `from` belongs to the byte at `p`. */
  predicate Taken(from: nat, p: nat, i: nat) {
    var row := from - from % 16;
    p >= row && (i == 12 + 3 * (p - row) || i == 13 + 3 * (p - row) || i == 61 + (p - row))
  }

  /** Nothing else is in a row. */
  lemma RowIsBlankElsewhere(ks: seq<Kind>, data: seq<Byte>, from: nat, to: nat, i: nat)
    requires from < to <= |ks| == |data| && from / 16 == (to - 1) / 16
    requires 10 <= i < |RowText(ks, data, from, to)| - 2
    requires forall p :: from <= p < to ==> !Taken(from, p, i)
    ensures RowText(ks, data, from, to)[i] == ' '
  {
    hide Address, DigitOf, CharOf;
    if !PlaceOf(i).Margin? {
      ColumnTaken(from, i);
    }
  }

  lemma ColumnTaken(from: nat, i: nat)
    requires !PlaceOf(i).Margin?
    ensures Taken(from, from - from % 16 + PlaceOf(i).column, i)
  {
  }

  // ------------------------------------------------------------------
  // A gap

  lemma {:induction false} DecimalMeans(n: nat)
    ensures Int64.Digits(Decimal(n)) && Decimal(n) != "" && Int64.DecimalValue(Decimal(n)) == n
    ensures |Decimal(n)| > 1 ==> Decimal(n)[0] != '0'
    ensures n > 0 ==> Decimal(n)[0] != '0'
  {
    var front, c := if n < 10 then "" else Decimal(n / 10), "0123456789"[n % 10];
    DecimalDigit(n % 10);
    if n >= 10 {
      DecimalMeans(n / 10);
    }
    assert Decimal(n) == front + [c];
    hide Decimal;
    assert Int64.DecimalValue("") == 0;
    OneMoreDigit(front, c);
  }

  lemma OneMoreDigit(front: string, c: char)
    requires Int64.Digits(front) && Int64.IsDigit(c)
    ensures Int64.Digits(front + [c])
    ensures Int64.DecimalValue(front + [c]) == 10 * Int64.DecimalValue(front) + Int64.DigitValue(c)
  {
    assert (front + [c])[..|front|] == front;
  }

  lemma DecimalDigit(n: nat)
    requires n < 10
    ensures Int64.IsDigit("0123456789"[n]) && Int64.DigitValue("0123456789"[n]) == n
    ensures n > 0 ==> "0123456789"[n] != '0'
  {
    assert "0123456789"[n] as int == 48 + n;
  }

  /** The number of bytes left out, in canonical digits, and the right form of the word. */
  lemma GapLooks(count: nat)
    ensures exists digits: string ::
      && Int64.Canonical(digits) && Int64.DecimalValue(digits) == count
      && GapText(count) == "  (" + digits + " byte" + (if count == 1 then "" else "s") + " omitted)\r\n"
  {
    DecimalMeans(count);
    assert Int64.Canonical(Decimal(count));
  }

  // ------------------------------------------------------------------
  // Areas

  /** A byte is shown as the area that covers it says, and as it is if none does. */
  lemma {:induction false} KindMeans(areas: seq<Area>, p: nat)
    requires Sorted(areas)
    ensures forall i :: 0 <= i < |areas| && areas[i].offset <= p < areas[i].offset + areas[i].len ==>
      KindAt(areas, p) == areas[i].kind
    ensures (forall i :: 0 <= i < |areas| ==> !(areas[i].offset <= p < areas[i].offset + areas[i].len)) ==>
      KindAt(areas, p) == Emit
  {
    if areas != [] {
      KindMeans(areas[1..], p);
      forall i | 0 < i < |areas|
        ensures areas[i] == areas[1..][i - 1] && areas[0].offset + areas[0].len <= areas[i].offset
      {
      }
    }
  }
}
