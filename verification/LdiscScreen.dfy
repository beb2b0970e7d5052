/** The screen. */
module LdiscScreen {
  import opened Bytes
  import opened Ldisc

  // With echo on, the row of the terminal shows exactly the line being typed, after every sequence of
  // whole characters and editing keys.

  /** A row of cells up to the cursor; what is right of it has been blanked. */
  type Row = seq<seq<Byte>>

  /** One byte on a terminal: back, to the start of an empty row, a new cell, or the rest of a character. */
  function ShowByte(utf: bool, row: Row, b: Byte): Row {
    if b == 8 then row[..if row == [] then 0 else |row| - 1]
    else if b == 10 || b == 13 then []
    else if 32 <= b <= 126 || (utf && b >= 0xc0) || (!utf && b >= 0xa0) then row + [[b]]
    else if utf && 0x80 <= b < 0xc0 && row != [] then row[..|row| - 1] + [row[|row| - 1] + [b]]
    else row
  }

  function ShowText(utf: bool, row: Row, text: seq<Byte>): Row {
    if text == [] then row else ShowByte(utf, ShowText(utf, row, text[..|text| - 1]), text[|text| - 1])
  }

  function Show(utf: bool, row: Row, outs: seq<Out>): Row {
    if outs == [] then row
    else
      var before, out := Show(utf, row, outs[..|outs| - 1]), outs[|outs| - 1];
      if out.Screen? then ShowText(utf, before, out.text) else before
  }

  const DIGITS: string := "0123456789ABCDEF"

  /** How a character looks: itself, `^` and a letter for a control character, or `<` two hex digits `>`. */
  function Picture(utf: bool, ch: seq<Byte>): Row
    requires WholeCharacter(utf, ch)
  {
    var c: int := ch[0];
    if |ch| > 1 || (32 <= c <= 126) || (utf && c >= 0xc0) || (!utf && c >= 0xa0) then [ch]
    else if c == 127 then [['^' as int], ['?' as int]]
    else if c < 32 then [['^' as int], [c + 64]]
    else [['<' as int], Ascii([DIGITS[c / 16]]), Ascii([DIGITS[c % 16]]), ['>' as int]]
  }

  function Pictures(utf: bool, chars: seq<seq<Byte>>): Row
    requires Characters(utf, chars)
  {
    if chars == [] then [] else Pictures(utf, chars[..|chars| - 1]) + Picture(utf, chars[|chars| - 1])
  }

  // ------------------------------------------------------------------
  // Pieces of output

  lemma {:induction false} ShowTextJoins(utf: bool, row: Row, a: seq<Byte>, b: seq<Byte>)
    ensures ShowText(utf, row, a + b) == ShowText(utf, ShowText(utf, row, a), b)
  {
    hide ShowByte;
    if b == [] {
      assert a + b == a;
    } else {
      assert (a + b)[..|a + b| - 1] == a + b[..|b| - 1];
      ShowTextJoins(utf, row, a, b[..|b| - 1]);
    }
  }

  lemma {:induction false} ShowJoins(utf: bool, row: Row, a: seq<Out>, b: seq<Out>)
    ensures Show(utf, row, a + b) == Show(utf, Show(utf, row, a), b)
  {
    hide ShowText;
    if b == [] {
      assert a + b == a;
    } else {
      assert (a + b)[..|a + b| - 1] == a + b[..|b| - 1];
      ShowJoins(utf, row, a, b[..|b| - 1]);
    }
  }

  lemma ShowOne(utf: bool, row: Row, out: Out)
    ensures Show(utf, row, [out]) == if out.Screen? then ShowText(utf, row, out.text) else row
    ensures Show(utf, row, []) == row
  {
    hide ShowText;
    assert [out][..0] == [];
  }

  lemma ShowOneByte(utf: bool, row: Row, b: Byte)
    ensures ShowText(utf, row, [b]) == ShowByte(utf, row, b)
  {
    assert [b][..0] == [];
  }

  lemma {:induction false} ShowPlain(utf: bool, row: Row, text: seq<Byte>)
    requires forall i :: 0 <= i < |text| ==> 32 <= text[i] <= 126
    ensures ShowText(utf, row, text) == row + seq(|text|, i requires 0 <= i < |text| => [text[i]])
  {
    if text != [] {
      ShowPlain(utf, row, text[..|text| - 1]);
    }
  }

  /** A byte that begins a character. */
  lemma ByteShown(utf: bool, row: Row, c: Byte)
    requires WholeCharacter(utf, [c])
    ensures ShowText(utf, row, PWrite(utf, c)) == row + Picture(utf, [c])
  {
    var text := PWrite(utf, c);
    if |text| == 1 {
      ShowOneByte(utf, row, c);
    } else {
      ShowPlain(utf, row, text);
      var cells := seq(|text|, i requires 0 <= i < |text| => [text[i]]);
      if |text| == 2 {
        assert cells == [[text[0]], [text[1]]];
      } else {
        HexDigit(c / 16);
        HexDigit(c % 16);
        assert cells == [[text[0]], [text[1]], [text[2]], [text[3]]];
      }
    }
  }

  lemma HexDigit(n: nat)
    requires n < 16
    ensures Ascii([DIGITS[n]]) == [UpperHex(n)]
  {
    if n < 10 {
      assert DIGITS[n] as int == 48 + n;
    } else {
      assert DIGITS[n] as int == 55 + n;
    }
  }

  lemma RubShown(utf: bool, row: Row)
    requires row != []
    ensures Show(utf, row, [RUB]) == row[..|row| - 1]
  {
    var front := row[..|row| - 1];
    ShowOne(utf, row, RUB);
    ShowTextJoins(utf, row, [8], [32, 8]);
    ShowTextJoins(utf, front, [32], [8]);
    ShowOneByte(utf, row, 8);
    ShowOneByte(utf, front, 32);
    ShowOneByte(utf, front + [[32]], 8);
    assert [8, 32, 8] == [8] + [32, 8] && [32, 8] == [32] + [8];
  }

  lemma {:induction false} RubsShown(utf: bool, row: Row, n: nat)
    requires n <= |row|
    ensures Show(utf, row, Repeat(RUB, n)) == row[..|row| - n]
  {
    hide ShowText;
    if n > 0 {
      RubsShown(utf, row, n - 1);
      ShowJoins(utf, row, Repeat(RUB, n - 1), [RUB]);
      RubShown(utf, row[..|row| - (n - 1)]);
    }
  }

  /** A character takes as many cells as the editor counts columns for it. */
  lemma PictureWidth(utf: bool, ch: seq<Byte>)
    requires WholeCharacter(utf, ch)
    ensures |Picture(utf, ch)| == Width(utf, ch)
  {
    assert ch == [ch[0]] + ch[1..];
    TailWidth(utf, ch[1..]);
  }

  lemma {:induction false} TailWidth(utf: bool, tail: seq<Byte>)
    requires forall i :: 0 <= i < |tail| ==> utf && 0x80 <= tail[i] < 0xc0
    ensures Width(utf, tail) == 0
  {
    if tail != [] {
      TailWidth(utf, tail[1..]);
    }
  }

  lemma {:induction false} PicturesWidth(utf: bool, chars: seq<seq<Byte>>)
    requires Characters(utf, chars)
    ensures |Pictures(utf, chars)| == Width(utf, Join(chars))
  {
    hide Picture, WholeCharacter;
    if chars == [] {
      assert Width(utf, []) == 0;
    } else {
      PicturesWidth(utf, chars[..|chars| - 1]);
      PictureWidth(utf, chars[|chars| - 1]);
      WidthJoins(utf, Join(chars[..|chars| - 1]), chars[|chars| - 1]);
    }
  }

  lemma PicturesOfMore(utf: bool, chars: seq<seq<Byte>>, ch: seq<Byte>)
    requires Characters(utf, chars) && WholeCharacter(utf, ch)
    ensures Characters(utf, chars + [ch]) && Pictures(utf, chars + [ch]) == Pictures(utf, chars) + Picture(utf, ch)
  {
    hide Picture, WholeCharacter;
    assert (chars + [ch])[..|chars|] == chars;
  }

  lemma {:induction false} PicturesPrefix(utf: bool, chars: seq<seq<Byte>>, k: nat)
    requires Characters(utf, chars) && k <= |chars|
    ensures Pictures(utf, chars[..k]) <= Pictures(utf, chars)
  {
    hide Picture, WholeCharacter;
    if k == |chars| {
      assert chars[..k] == chars;
    } else {
      assert chars[..|chars| - 1][..k] == chars[..k];
      PicturesPrefix(utf, chars[..|chars| - 1], k);
    }
  }

  // ------------------------------------------------------------------
  // Keys

  /** The rest of a character joins its first cell. */
  lemma {:induction false} TailShown(cfg: Config, buf: seq<Byte>, tail: seq<Byte>, row: Row, first: seq<Byte>)
    requires cfg.echo && forall i :: 0 <= i < |tail| ==> cfg.utf && 0x80 <= tail[i] < 0xc0
    ensures Safe(cfg, Line(buf, false), tail)
    ensures var r := Run(cfg, Line(buf, false), tail);
      r.0 == Line(buf + tail, false) && Show(cfg.utf, row + [first], r.1) == row + [first + tail]
    decreases |tail|
  {
    hide LineEnd, Killed, LastStart, WordStart, Rubout, Show, ShowText;
    if tail == [] {
      assert buf + tail == buf && first + tail == first;
      ShowOne(cfg.utf, row + [first], RUB);
    } else {
      var c := tail[0];
      var shown := row + [first];
      assert Step(cfg, Line(buf, false), c) == (Line(buf + [c], false), [Screen(PWrite(cfg.utf, c))]);
      assert PWrite(cfg.utf, c) == [c];
      ShowOne(cfg.utf, shown, Screen([c]));
      ShowOneByte(cfg.utf, shown, c);
      assert ShowByte(cfg.utf, shown, c) == row + [first + [c]];
      TailShown(cfg, buf + [c], tail[1..], row, first + [c]);
      ShowJoins(cfg.utf, shown, [Screen([c])], Run(cfg, Line(buf + [c], false), tail[1..]).1);
      assert buf + [c] + tail[1..] == buf + tail && first + [c] + tail[1..] == first + tail;
    }
  }

  /** A key that puts itself into the line, and the rest of its character. */
  lemma CharacterShown(cfg: Config, line: Line, c: nat, tail: seq<Byte>, row: Row)
    requires cfg.echo && WholeCharacter(cfg.utf, [c % 256] + tail) && (line.quote || !Commands(c))
    ensures Safe(cfg, line, [c] + tail)
    ensures Show(cfg.utf, row, Run(cfg, line, [c] + tail).1) == row + Picture(cfg.utf, [c % 256] + tail)
  {
    hide Step, Safe, Run, Show, ShowText, Picture, PWrite;
    var utf, b := cfg.utf, c % 256;
    FirstAlone(utf, b, tail);
    KeyEchoes(cfg, line, c);
    RunOne(cfg, line, c);
    ShowOne(utf, row, Screen(PWrite(utf, b)));
    ByteShown(utf, row, b);
    if tail == [] {
      assert [c] + tail == [c] && [b] + tail == [b];
    } else {
      TailShown(cfg, line.buf + [b], tail, row, [b]);
      SafeJoins(cfg, line, [c], tail);
      RunSplits(cfg, line, [c], tail);
      ShowJoins(utf, row, Run(cfg, line, [c]).1, Run(cfg, Line(line.buf + [b], false), tail).1);
    }
  }

  lemma FirstAlone(utf: bool, b: Byte, tail: seq<Byte>)
    requires WholeCharacter(utf, [b] + tail)
    ensures WholeCharacter(utf, [b])
    ensures forall i :: 0 <= i < |tail| ==> utf && 0x80 <= tail[i] < 0xc0
    ensures tail != [] ==> Picture(utf, [b]) == [[b]] && Picture(utf, [b] + tail) == [[b] + tail]
  {
    var ch := [b] + tail;
    forall i | 0 <= i < |tail|
      ensures utf && 0x80 <= tail[i] < 0xc0
    {
      assert ch[i + 1] == tail[i];
    }
  }

  lemma KeyEchoes(cfg: Config, line: Line, c: nat)
    requires cfg.echo && (line.quote || !Commands(c))
    ensures StaysInLine(cfg, line, c)
    ensures Step(cfg, line, c) == (Line(line.buf + [c % 256], false), [Screen(PWrite(cfg.utf, c % 256))])
  {
    hide Rubout, LineEnd, Killed, LastStart, WordStart, Shown, PWrite;
  }

  /** Cutting the line back to its first `k` characters leaves their pictures. */
  lemma CutShown(cfg: Config, chars: seq<seq<Byte>>, k: nat, base: Row)
    requires cfg.echo && Characters(cfg.utf, chars) && k <= |chars|
    ensures var n := |Join(chars[..k])|;
      && n <= |Join(chars)|
      && Show(cfg.utf, base + Pictures(cfg.utf, chars), CutTo(cfg, Line(Join(chars), false), n).1)
         == base + Pictures(cfg.utf, chars[..k])
  {
    hide Show, Picture, WholeCharacter, Width, Join;
    var utf, buf := cfg.utf, Join(chars);
    JoinSplits(chars, k);
    var n := |Join(chars[..k])|;
    assert buf[..n] == Join(chars[..k]) && buf == buf[..n] + buf[n..];
    WidthJoins(utf, buf[..n], buf[n..]);
    PicturesWidth(utf, chars);
    PicturesWidth(utf, chars[..k]);
    PicturesPrefix(utf, chars, k);
    var row := base + Pictures(utf, chars);
    RubsShown(utf, row, Width(utf, buf[n..]));
    assert row[..|row| - Width(utf, buf[n..])] == base + Pictures(utf, chars[..k]);
  }

  lemma {:induction false} JoinSplits(chars: seq<seq<Byte>>, k: nat)
    requires k <= |chars|
    ensures |Join(chars[..k])| <= |Join(chars)| && Join(chars)[..|Join(chars[..k])|] == Join(chars[..k])
  {
    if k == |chars| {
      assert chars[..k] == chars;
    } else {
      assert chars[..|chars| - 1][..k] == chars[..k];
      JoinSplits(chars[..|chars| - 1], k);
    }
  }

  lemma {:induction false} LineShown(utf: bool, chars: seq<seq<Byte>>, row: Row)
    requires Characters(utf, chars)
    ensures Show(utf, row, Shown(utf, Join(chars))) == row + Pictures(utf, chars)
  {
    hide ShowText, Picture, WholeCharacter, PWrite;
    if chars != [] {
      var front, ch := chars[..|chars| - 1], chars[|chars| - 1];
      LineShown(utf, front, row);
      CharacterRedrawn(utf, Join(front), ch);
      ShowJoins(utf, row, Shown(utf, Join(front)), Shown(utf, ch));
      OneRedrawn(utf, row + Pictures(utf, front), ch);
    }
  }

  lemma {:induction false} CharacterRedrawn(utf: bool, a: seq<Byte>, b: seq<Byte>)
    ensures Shown(utf, a + b) == Shown(utf, a) + Shown(utf, b)
  {
    hide PWrite;
    if b == [] {
      assert a + b == a;
    } else {
      assert (a + b)[..|a + b| - 1] == a + b[..|b| - 1];
      CharacterRedrawn(utf, a, b[..|b| - 1]);
    }
  }

  lemma {:induction false} OneRedrawn(utf: bool, row: Row, ch: seq<Byte>)
    requires WholeCharacter(utf, ch)
    ensures Show(utf, row, Shown(utf, ch)) == row + Picture(utf, ch)
  {
    hide ShowText, PWrite;
    var front, c := ch[..|ch| - 1], ch[|ch| - 1];
    if front == [] {
      assert ch == [c] && Shown(utf, ch) == [Screen(PWrite(utf, c))];
      ShowOne(utf, row, Screen(PWrite(utf, c)));
      ByteShown(utf, row, c);
    } else {
      assert ch == front + [c] && front[0] == ch[0];
      assert WholeCharacter(utf, front) && 0x80 <= c < 0xc0 && Picture(utf, front) == [front];
      OneRedrawn(utf, row, front);
      ContinuationShown(utf, row, front, c);
    }
  }

  lemma ContinuationShown(utf: bool, row: Row, first: seq<Byte>, c: Byte)
    requires utf && 0x80 <= c < 0xc0
    ensures ShowText(utf, row + [first], PWrite(utf, c)) == row + [first + [c]]
  {
    ShowOneByte(utf, row + [first], c);
  }

  // ------------------------------------------------------------------
  // Everything that can be typed

  /** Where the line being typed begins in the row: behind what ^D has sent, at the left after a new line. */
  function Base(cfg: Config, base: Row, chars: seq<seq<Byte>>, t: Typed): Row
    requires Characters(cfg.utf, chars)
  {
    match t
    case Redraw => []
    case Enter => []
    case LineFeed => if cfg.protocol == Raw && chars != [] && chars[|chars| - 1] == [13] then [] else base
    case Submit => base + Pictures(cfg.utf, chars)
    case _ => base
  }

  /** The keys of one thing typed leave the pictures of the new line. */
  ghost predicate ShowsOnce(cfg: Config, base: Row, chars: seq<seq<Byte>>, t: Typed) {
    && Characters(cfg.utf, chars) && Characters(cfg.utf, Edit(cfg, chars, t).0)
    && Safe(cfg, Line(Join(chars), false), Keys(t))
    && Show(cfg.utf, base + Pictures(cfg.utf, chars), Run(cfg, Line(Join(chars), false), Keys(t)).1)
         == Base(cfg, base, chars, t) + Pictures(cfg.utf, Edit(cfg, chars, t).0)
  }

  lemma CharShows(cfg: Config, base: Row, chars: seq<seq<Byte>>, t: Typed)
    requires cfg.echo && Characters(cfg.utf, chars) && ValidTyped(cfg.utf, t) && (t.Char? || t.Quoted?)
    ensures ShowsOnce(cfg, base, chars, t)
  {
    hide Safe, Run, Show, ShowText, Picture, Pictures, PWrite, Join, WholeCharacter, Characters, Commands;
    var line, row, ch := Line(Join(chars), false), base + Pictures(cfg.utf, chars), [t.c % 256] + t.tail;
    PicturesOfMore(cfg.utf, chars, ch);
    ConcatAssoc(base, Pictures(cfg.utf, chars), Picture(cfg.utf, ch));
    if t.Char? {
      CharacterShown(cfg, line, t.c, t.tail, row);
    } else {
      var quoted, codes := Line(Join(chars), true), [t.c] + t.tail;
      assert Step(cfg, line, 0x16) == (quoted, []);
      RunOne(cfg, line, 0x16);
      CharacterShown(cfg, quoted, t.c, t.tail, row);
      SafeJoins(cfg, line, [0x16], codes);
      RunSplits(cfg, line, [0x16], codes);
      assert [0x16] + codes == [0x16, t.c] + t.tail;
      var none: seq<Out> := [];
      assert none + Run(cfg, quoted, codes).1 == Run(cfg, quoted, codes).1;
    }
  }

  lemma EraseShows(cfg: Config, base: Row, chars: seq<seq<Byte>>, t: Typed)
    requires cfg.echo && Characters(cfg.utf, chars) && (t.Backspace? || t.Delete? || t.EraseWord?)
    ensures ShowsOnce(cfg, base, chars, t)
  {
    hide Safe, Run, Show, ShowText, Picture, Pictures, PWrite, Join, LastWord, WordStart, WholeCharacter, Rubout;
    var line, c := Line(Join(chars), false), Keys(t)[0];
    var k := if t.EraseWord? then LastWord(chars) else if chars == [] then 0 else |chars| - 1;
    assert Edit(cfg, chars, t).0 == chars[..k];
    EraseCuts(cfg, chars, t, k);
    RunOne(cfg, line, c);
    CutShown(cfg, chars, k, base);
  }

  /** The key cuts the line back to the first `k` characters. */
  lemma EraseCuts(cfg: Config, chars: seq<seq<Byte>>, t: Typed, k: nat)
    requires Characters(cfg.utf, chars) && (t.Backspace? || t.Delete? || t.EraseWord?)
    requires k == if t.EraseWord? then LastWord(chars) else if chars == [] then 0 else |chars| - 1
    ensures var line, c, n := Line(Join(chars), false), Keys(t)[0], |Join(chars[..k])|;
      StaysInLine(cfg, line, c) && n <= |line.buf| && Step(cfg, line, c) == CutTo(cfg, line, n)
  {
    hide Join, LastWord, WordStart, WholeCharacter, Rubout;
    var line, c := Line(Join(chars), false), Keys(t)[0];
    JoinSplits(chars, k);
    if t.EraseWord? {
      WordStartOfCharacters(cfg.utf, chars);
    } else if chars == [] {
      JoinOfNone();
      assert chars[..0] == [];
    } else {
      var front, ch := Join(chars[..k]), chars[k];
      assert Join(chars) == front + ch by {
        JoinLastOf(chars);
      }
      assert WholeCharacter(cfg.utf, ch);
      IsCharacter(cfg.utf, ch);
      ErasesOneCharacter(cfg, front, ch, c);
      assert line.buf[..|front|] == front && line.buf[|front|..] == ch;
    }
  }

  lemma JoinLastOf(chars: seq<seq<Byte>>)
    requires chars != []
    ensures Join(chars) == Join(chars[..|chars| - 1]) + chars[|chars| - 1]
  {
  }

  lemma IsCharacter(utf: bool, ch: seq<Byte>)
    requires WholeCharacter(utf, ch)
    ensures Character(utf, ch)
  {
  }

  lemma KillShows(cfg: Config, base: Row, chars: seq<seq<Byte>>, t: Typed)
    requires cfg.echo && Characters(cfg.utf, chars) && t.Kill?
    ensures ShowsOnce(cfg, base, chars, t)
  {
    hide Safe, Run, Show, ShowText, Picture, Pictures, PWrite, Join, WholeCharacter, Rubout, Signal;
    var line, c, row := Line(Join(chars), false), KillKey(t.killing), base + Pictures(cfg.utf, chars);
    KillSignals(t.killing);
    PlainKillKey(t.killing);
    RunOne(cfg, line, c);
    assert Step(cfg, line, c) == Killed(cfg, line, c);
    assert chars[..0] == [];
    JoinOfNone();
    CutShown(cfg, chars, 0, base);
    NoPictures(cfg.utf);
    assert base + [] == base;
    var cut := CutTo(cfg, line, 0);
    ShowOne(cfg.utf, base, Special(EraseLine));
    ShowJoins(cfg.utf, row, cut.1, [Special(EraseLine)]);
    if cfg.telnetKeyboard {
      SignalsUnseen(cfg.utf, base, c);
      ShowJoins(cfg.utf, row, cut.1 + [Special(EraseLine)], Signal(c));
    } else {
      KillKeyShown(cfg, base, c);
      ShowJoins(cfg.utf, row, cut.1 + [Special(EraseLine)], Inserted(cfg, cut.0, c).1);
    }
  }

  lemma PlainKillKey(killing: Killing)
    ensures KillKey(killing) < 0x80
  {
  }

  lemma NoPictures(utf: bool)
    ensures Characters(utf, []) && Pictures(utf, []) == []
  {
  }

  lemma SignalsUnseen(utf: bool, row: Row, c: nat)
    ensures Show(utf, row, Signal(c)) == row
  {
    ShowOne(utf, row, Special(Interrupt));
    ShowOne(utf, row, Special(Suspend));
    ShowOne(utf, row, Special(Abort));
  }

  lemma KillKeyShown(cfg: Config, base: Row, c: Byte)
    requires cfg.echo && c < 0x80
    ensures Characters(cfg.utf, [[c]])
    ensures Show(cfg.utf, base, Inserted(cfg, Line([], false), c).1) == base + Pictures(cfg.utf, [[c]])
  {
    hide Show, ShowText, Picture, PWrite, WholeCharacter, Pictures;
    PlainIsWhole(cfg.utf, c);
    ShowOne(cfg.utf, base, Screen(PWrite(cfg.utf, c)));
    ByteShown(cfg.utf, base, c);
    NoPictures(cfg.utf);
    PicturesOfMore(cfg.utf, [], [c]);
    var none: seq<seq<Byte>> := [];
    assert none + [[c]] == [[c]] && none + Picture(cfg.utf, [c]) == Picture(cfg.utf, [c]);
  }

  /** What ends in a new line leaves an empty row. */
  lemma NewLineShown(utf: bool, row: Row, before: seq<Out>, text: seq<Byte>)
    requires |text| >= 1 && (text[|text| - 1] == 10 || text[|text| - 1] == 13)
    ensures Show(utf, row, before + [Screen(text)]) == []
  {
    ShowJoins(utf, row, before, [Screen(text)]);
    ShowOne(utf, Show(utf, row, before), Screen(text));
  }

  lemma LineEndShown(cfg: Config, row: Row, before: seq<Out>, buf: seq<Byte>)
    requires cfg.echo
    ensures Show(cfg.utf, row, before + LineEnd(cfg, buf)) == []
  {
    hide Show, ShowText;
    var sent := LineEnd(cfg, buf)[..|LineEnd(cfg, buf)| - 1];
    assert LineEnd(cfg, buf) == sent + [Screen([CR, 10])];
    ConcatAssoc(before, sent, [Screen([CR, 10])]);
    NewLineShown(cfg.utf, row, before + sent, [CR, 10]);
  }

  lemma SendShows(cfg: Config, base: Row, chars: seq<seq<Byte>>, t: Typed)
    requires cfg.echo && Characters(cfg.utf, chars) && (t.Submit? || t.Enter? || t.Redraw?)
    ensures ShowsOnce(cfg, base, chars, t)
  {
    hide Safe, Run, Show, ShowText, Picture, Pictures, PWrite, Join, WholeCharacter, LineEnd, Shown;
    var utf, line, row := cfg.utf, Line(Join(chars), false), base + Pictures(cfg.utf, chars);
    NoPictures(utf);
    RunOne(cfg, line, Keys(t)[0]);
    match t
    case Submit =>
      ShowOne(utf, row, Send(line.buf));
      ShowOne(utf, row, Special(EndOfFile));
      assert row + [] == row;
    case Enter =>
      LineEndShown(cfg, row, [], line.buf);
      assert [] + LineEnd(cfg, line.buf) == LineEnd(cfg, line.buf);
    case Redraw =>
      var head: seq<Out> := [Screen(['^' as int, 'R' as int, CR, 10])];
      NewLineShown(utf, row, [], ['^' as int, 'R' as int, CR, 10]);
      assert [] + head == head;
      ShowJoins(utf, row, head, Shown(utf, line.buf));
      LineShown(utf, chars, []);
  }

  lemma LineFeedShows(cfg: Config, base: Row, chars: seq<seq<Byte>>)
    requires cfg.echo && Characters(cfg.utf, chars)
    ensures ShowsOnce(cfg, base, chars, LineFeed)
  {
    hide Safe, Run, Show, ShowText, Picture, Pictures, PWrite, WholeCharacter, LineEnd, Rubout;
    var utf, line, row := cfg.utf, Line(Join(chars), false), base + Pictures(cfg.utf, chars);
    NoPictures(utf);
    RunOne(cfg, line, 0x0a);
    if chars != [] {
      LastByte(utf, chars);
    }
    if EndsRawLine(cfg, line, 0x0a) {
      LineEndShown(cfg, row, Rubout(cfg, [CR]), line.buf[..|line.buf| - 1]);
    } else {
      assert WholeCharacter(utf, [10]) by {
        PlainIsWhole(utf, 10);
      }
      ShowOne(utf, row, Screen(PWrite(utf, 10)));
      ByteShown(utf, row, 10);
      PicturesOfMore(utf, chars, [10]);
      ConcatAssoc(base, Pictures(utf, chars), Picture(utf, [10]));
    }
  }

  lemma PlainIsWhole(utf: bool, c: Byte)
    requires c < 0x80
    ensures WholeCharacter(utf, [c])
  {
  }

  lemma TypedShows(cfg: Config, base: Row, chars: seq<seq<Byte>>, t: Typed)
    requires cfg.echo && Characters(cfg.utf, chars) && ValidTyped(cfg.utf, t)
    ensures ShowsOnce(cfg, base, chars, t)
  {
    hide ShowsOnce, ValidTyped, Characters;
    match t
    case Char(_, _) => CharShows(cfg, base, chars, t);
    case Quoted(_, _) => CharShows(cfg, base, chars, t);
    case Backspace => EraseShows(cfg, base, chars, t);
    case Delete => EraseShows(cfg, base, chars, t);
    case EraseWord => EraseShows(cfg, base, chars, t);
    case Kill(_) => KillShows(cfg, base, chars, t);
    case LineFeed => LineFeedShows(cfg, base, chars);
    case _ => SendShows(cfg, base, chars, t);
  }

  function BaseAfter(cfg: Config, base: Row, chars: seq<seq<Byte>>, typed: seq<Typed>): Row
    requires Characters(cfg.utf, chars) && AllValid(cfg.utf, typed)
    decreases |typed|
  {
    if typed == [] then base
    else
      EditKeepsCharacters(cfg, chars, typed[0]);
      BaseAfter(cfg, Base(cfg, base, chars, typed[0]), Edit(cfg, chars, typed[0]).0, typed[1..])
  }

  /** After every sequence the row is what was there before the line, and the line, character by character. */
  lemma {:induction false} ScreenShowsLine(cfg: Config, base: Row, chars: seq<seq<Byte>>, typed: seq<Typed>)
    requires cfg.echo && Characters(cfg.utf, chars) && AllValid(cfg.utf, typed)
    ensures Safe(cfg, Line(Join(chars), false), AllKeys(typed))
    ensures Characters(cfg.utf, EditAll(cfg, chars, typed).0)
    ensures Show(cfg.utf, base + Pictures(cfg.utf, chars), Run(cfg, Line(Join(chars), false), AllKeys(typed)).1)
         == BaseAfter(cfg, base, chars, typed) + Pictures(cfg.utf, EditAll(cfg, chars, typed).0)
    decreases |typed|
  {
    hide Edit, Keys, Step, Join, Show, Pictures, Characters, ValidTyped, Base;
    var utf, line := cfg.utf, Line(Join(chars), false);
    if typed == [] {
      ShowOne(utf, base + Pictures(utf, chars), RUB);
    } else {
      var t, more := typed[0], typed[1..];
      TypedShows(cfg, base, chars, t);
      EditsWholeCharacters(cfg, chars, [t]);
      assert [t][1..] == [] && AllKeys([t]) == Keys(t);
      EditKeepsCharacters(cfg, chars, t);
      var next := Edit(cfg, chars, t).0;
      assert EditAll(cfg, chars, [t]).0 == next;
      ScreenShowsLine(cfg, Base(cfg, base, chars, t), next, more);
      SafeJoins(cfg, line, Keys(t), AllKeys(more));
      RunSplits(cfg, line, Keys(t), AllKeys(more));
      ShowJoins(utf, base + Pictures(utf, chars), Run(cfg, line, Keys(t)).1,
                Run(cfg, Line(Join(next), false), AllKeys(more)).1);
    }
  }
}
