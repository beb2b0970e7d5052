/** The line editor. */
module Ldisc {
  import opened Bytes

  // The line discipline's local editor: what each key does to the line being typed, what it sends
  // and what it writes on the screen.

  datatype Protocol = Raw | Telnet | Other

  /** What the editor looks at: the terminal's character set, local echo, and the Telnet options. */
  datatype Config = Config(utf: bool, echo: bool, protocol: Protocol, telnetNewline: bool, telnetKeyboard: bool)

  datatype Code = EraseLine | Interrupt | Suspend | Abort | EndOfFile | EndOfLine | EraseCharacter

  datatype Out = Screen(text: seq<Byte>) | Send(data: seq<Byte>) | Special(code: Code)

  /** The line being typed, and whether the next key is quoted. */
  datatype Line = Line(buf: seq<Byte>, quote: bool)

  // Key codes: a byte, plus KEY if it comes from a special key.
  const KEY: nat := 0x100
  const BS: nat := KEY + 0x08
  const DEL: nat := KEY + 0x7f
  const RETURN: nat := KEY + 0x0d
  const CTRL_C: nat := 0x03
  const CTRL_D: nat := 0x04
  const CTRL_J: nat := 0x0a
  const CTRL_R: nat := 0x12
  const CTRL_U: nat := 0x15
  const CTRL_V: nat := 0x16
  const CTRL_W: nat := 0x17
  const CTRL_Z: nat := 0x1a
  const CTRL_BACKSLASH: nat := 0x1c
  const CR: Byte := 13

  // ------------------------------------------------------------------
  // How one byte shows on the screen

  /** How many columns the editor counts for a byte. */
  function PLen(utf: bool, c: Byte): (n: nat) {
    if (32 <= c <= 126) || (c >= 160 && !utf) then 1
    else if c < 128 then 2
    else if utf && c >= 0xc0 then 1
    else if utf && 0x80 <= c < 0xc0 then 0
    else 4
  }

  function UpperHex(n: nat): Byte
    requires n < 16
  {
    if n < 10 then 48 + n else 55 + n
  }

  /** What the editor writes for a byte: itself, `^x` or `<XY>`. */
  function PWrite(utf: bool, c: Byte): seq<Byte> {
    if (32 <= c <= 126) || (!utf && c >= 0xa0) || (utf && c >= 0x80) then [c]
    else if c < 128 then ['^' as int, if c == 127 then '?' as int else 0x40 + c]
    else ['<' as int, UpperHex(c / 16), UpperHex(c % 16), '>' as int]
  }

  predicate CharStart(utf: bool, c: Byte) {
    utf ==> c < 0x80 || c >= 0xc0
  }

  function Width(utf: bool, buf: seq<Byte>): (w: nat) {
    if buf == [] then 0 else PLen(utf, buf[0]) + Width(utf, buf[1..])
  }

  const RUB: Out := Screen([8, 32, 8])

  function Repeat<T>(x: T, n: nat): (s: seq<T>)
    ensures |s| == n && forall i :: 0 <= i < n ==> s[i] == x
  {
    if n == 0 then [] else Repeat(x, n - 1) + [x]
  }

  /** What takes `tail` off the screen again. */
  function Rubout(cfg: Config, tail: seq<Byte>): seq<Out> {
    if cfg.echo then Repeat(RUB, Width(cfg.utf, tail)) else []
  }

  function Shown(utf: bool, buf: seq<Byte>): seq<Out> {
    if buf == [] then [] else Shown(utf, buf[..|buf| - 1]) + [Screen(PWrite(utf, buf[|buf| - 1]))]
  }

  // ------------------------------------------------------------------
  // Where the line is cut back to

  /** Index of the last byte that starts a character, or -1. */
  function LastStart(utf: bool, buf: seq<Byte>): (k: int)
    ensures -1 <= k < |buf|
  {
    if buf == [] then -1
    else if CharStart(utf, buf[|buf| - 1]) then |buf| - 1
    else LastStart(utf, buf[..|buf| - 1])
  }

  lemma {:induction false} LastStartMeans(utf: bool, buf: seq<Byte>, k: nat)
    requires k < |buf| && CharStart(utf, buf[k])
    requires forall j :: k < j < |buf| ==> !CharStart(utf, buf[j])
    ensures LastStart(utf, buf) == k
  {
    if k < |buf| - 1 {
      LastStartMeans(utf, buf[..|buf| - 1], k);
    }
  }

  /** White space of the C locale. */
  predicate IsSpace(c: Byte) {
    9 <= c <= 13 || c == 32
  }

  predicate WordBegins(buf: seq<Byte>, k: nat)
    requires k < |buf|
  {
    k == 0 || (IsSpace(buf[k - 1]) && !IsSpace(buf[k]))
  }

  /** Index of the last byte that begins a word or the line. */
  function WordStart(buf: seq<Byte>): (k: nat)
    ensures k <= |buf|
  {
    if buf == [] then 0
    else if WordBegins(buf, |buf| - 1) then |buf| - 1
    else WordStart(buf[..|buf| - 1])
  }

  lemma {:induction false} WordStartMeans(buf: seq<Byte>, k: nat)
    requires k < |buf| && WordBegins(buf, k)
    requires forall j :: k < j < |buf| ==> !WordBegins(buf, j)
    ensures WordStart(buf) == k
  {
    if k < |buf| - 1 {
      var front := buf[..|buf| - 1];
      forall j | k < j < |front|
        ensures !WordBegins(front, j)
      {
        assert !WordBegins(buf, j);
      }
      WordStartMeans(front, k);
    }
  }

  // ------------------------------------------------------------------
  // One key

  predicate Erases(line: Line, c: nat) {
    !line.quote && (c == BS || c == DEL) && line.buf != []
  }

  /** Erasing a character looks for its first byte without testing for the start of the line. */
  predicate StaysInLine(cfg: Config, line: Line, c: nat) {
    Erases(line, c) ==> LastStart(cfg.utf, line.buf) >= 0
  }

  function Inserted(cfg: Config, line: Line, c: nat): (Line, seq<Out>) {
    (Line(line.buf + [c % 256], false), if cfg.echo then [Screen(PWrite(cfg.utf, c % 256))] else [])
  }

  function CutTo(cfg: Config, line: Line, k: nat): (Line, seq<Out>)
    requires k <= |line.buf|
  {
    (Line(line.buf[..k], line.quote), Rubout(cfg, line.buf[k..]))
  }

  /** The line is sent, then its end in the protocol's own way. */
  function LineEnd(cfg: Config, buf: seq<Byte>): seq<Out> {
    (if buf != [] then [Send(buf)] else [])
    + [if cfg.protocol == Raw then Send([CR, 10])
       else if cfg.protocol == Telnet && cfg.telnetNewline then Special(EndOfLine)
       else Send([CR])]
    + (if cfg.echo then [Screen([CR, 10])] else [])
  }

  function Signal(c: nat): seq<Out> {
    if c == CTRL_C then [Special(Interrupt)]
    else if c == CTRL_Z then [Special(Suspend)]
    else if c == CTRL_BACKSLASH then [Special(Abort)]
    else []
  }

  /** The line is erased; with Telnet keys on, ^C, ^Z and ^\ signal, else the key is inserted. */
  function Killed(cfg: Config, line: Line, c: nat): (Line, seq<Out>) {
    var cut := CutTo(cfg, line, 0);
    if cfg.telnetKeyboard then
      (cut.0, cut.1 + [Special(EraseLine)] + Signal(c))
    else
      var inserted := Inserted(cfg, cut.0, c);
      (inserted.0, cut.1 + [Special(EraseLine)] + inserted.1)
  }

  predicate Kills(c: nat) {
    c == CTRL_U || c == CTRL_C || c == CTRL_BACKSLASH || c == CTRL_Z
  }

  /** In the raw protocol a line feed right after a carriage return ends the line. */
  predicate EndsRawLine(cfg: Config, line: Line, c: nat) {
    c == CTRL_J && cfg.protocol == Raw && line.buf != [] && line.buf[|line.buf| - 1] == CR
  }

  /** What one key does. */
  function Step(cfg: Config, line: Line, c: nat): (r: (Line, seq<Out>))
    requires StaysInLine(cfg, line, c)
  {
    if line.quote then Inserted(cfg, line, c)
    else if c == BS || c == DEL then
      CutTo(cfg, line, if line.buf == [] then 0 else LastStart(cfg.utf, line.buf))
    else if c == CTRL_W then CutTo(cfg, line, WordStart(line.buf))
    else if Kills(c) then Killed(cfg, line, c)
    else if c == CTRL_R then
      (line, if cfg.echo then [Screen(['^' as int, 'R' as int, CR, 10])] + Shown(cfg.utf, line.buf) else [])
    else if c == CTRL_V then (line.(quote := true), [])
    else if c == CTRL_D then
      (Line([], false), if line.buf == [] then [Special(EndOfFile)] else [Send(line.buf)])
    else if EndsRawLine(cfg, line, c) then
      (Line([], false), Rubout(cfg, [CR]) + LineEnd(cfg, line.buf[..|line.buf| - 1]))
    else if c == RETURN then (Line([], false), LineEnd(cfg, line.buf))
    else Inserted(cfg, line, c)
  }

  // ------------------------------------------------------------------
  // Runs of keys

  predicate Safe(cfg: Config, line: Line, codes: seq<nat>)
    decreases |codes|
  {
    codes == [] || (StaysInLine(cfg, line, codes[0]) && Safe(cfg, Step(cfg, line, codes[0]).0, codes[1..]))
  }

  function Run(cfg: Config, line: Line, codes: seq<nat>): (r: (Line, seq<Out>))
    requires Safe(cfg, line, codes)
    decreases |codes|
  {
    if codes == [] then (line, [])
    else
      var first := Step(cfg, line, codes[0]);
      var rest := Run(cfg, first.0, codes[1..]);
      (rest.0, first.1 + rest.1)
  }

  /** How the input is cut up does not matter. */
  lemma {:induction false} RunSplits(cfg: Config, line: Line, a: seq<nat>, b: seq<nat>)
    requires Safe(cfg, line, a + b)
    ensures Safe(cfg, line, a) && Safe(cfg, Run(cfg, line, a).0, b)
    ensures Run(cfg, line, a + b).0 == Run(cfg, Run(cfg, line, a).0, b).0
    ensures Run(cfg, line, a + b).1 == Run(cfg, line, a).1 + Run(cfg, Run(cfg, line, a).0, b).1
    decreases |a|
  {
    hide Step;
    if a == [] {
      assert a + b == b;
    } else {
      assert (a + b)[1..] == a[1..] + b;
      RunSplits(cfg, Step(cfg, line, a[0]).0, a[1..], b);
    }
  }

  lemma {:induction false} SafeJoins(cfg: Config, line: Line, a: seq<nat>, b: seq<nat>)
    requires Safe(cfg, line, a) && Safe(cfg, Run(cfg, line, a).0, b)
    ensures Safe(cfg, line, a + b)
    decreases |a|
  {
    hide Step;
    if a == [] {
      assert a + b == b;
    } else {
      assert (a + b)[1..] == a[1..] + b;
      SafeJoins(cfg, Step(cfg, line, a[0]).0, a[1..], b);
    }
  }

  // ------------------------------------------------------------------
  // Staying within the line

  /** Erasing stays within the line exactly if some byte of it starts a character. */
  lemma {:induction false} LastStartExistsIff(utf: bool, buf: seq<Byte>)
    ensures LastStart(utf, buf) >= 0 <==> exists k :: 0 <= k < |buf| && CharStart(utf, buf[k])
  {
    if buf != [] && !CharStart(utf, buf[|buf| - 1]) {
      var front := buf[..|buf| - 1];
      LastStartExistsIff(utf, front);
      if LastStart(utf, front) >= 0 {
        var k :| 0 <= k < |front| && CharStart(utf, front[k]);
        assert buf[k] == front[k];
      }
    } else if buf != [] {
      assert CharStart(utf, buf[|buf| - 1]);
    }
  }

  /** A stray continuation byte and a backspace are enough to leave it. */
  lemma StrayByteLeavesLine(cfg: Config)
    requires cfg.utf
    ensures !Safe(cfg, Line([], false), [0x80, BS])
  {
    assert Step(cfg, Line([], false), 0x80).0 == Line([0x80], false);
    assert [0x80, BS][1..] == [BS];
  }

  predicate StartsWell(utf: bool, buf: seq<Byte>) {
    buf != [] ==> CharStart(utf, buf[0])
  }

  /** Every continuation byte comes right after another byte of a multibyte character. */
  predicate ContinuationsFollow(utf: bool, codes: seq<nat>, i: nat)
    requires i < |codes|
  {
    !CharStart(utf, codes[i] % 256) ==> i > 0 && 0x80 <= codes[i - 1] < 0x100
  }

  predicate WellFormed(utf: bool, codes: seq<nat>) {
    forall i :: 0 <= i < |codes| ==> ContinuationsFollow(utf, codes, i)
  }

  /** Well-formed input never lets the editor leave the line. */
  lemma {:induction false} WellFormedIsSafe(cfg: Config, line: Line, codes: seq<nat>, i: nat)
    requires WellFormed(cfg.utf, codes) && i <= |codes| && StartsWell(cfg.utf, line.buf)
    requires i > 0 && 0x80 <= codes[i - 1] < 0x100 ==> line.buf != []
    ensures Safe(cfg, line, codes[i..])
    decreases |codes| - i
  {
    hide Step;
    if i < |codes| {
      assert ContinuationsFollow(cfg.utf, codes, i);
      StepStartsWell(cfg, line, codes[i]);
      WellFormedIsSafe(cfg, Step(cfg, line, codes[i]).0, codes, i + 1);
      assert codes[i..][1..] == codes[i + 1..];
    }
  }

  lemma StepStartsWell(cfg: Config, line: Line, c: nat)
    requires StartsWell(cfg.utf, line.buf)
    requires line.buf == [] ==> CharStart(cfg.utf, c % 256)
    ensures StaysInLine(cfg, line, c)
    ensures StartsWell(cfg.utf, Step(cfg, line, c).0.buf)
    ensures 0x80 <= c < 0x100 ==> Step(cfg, line, c).0.buf != []
  {
    hide Rubout, Width, Shown, LineEnd, PWrite;
    LastStartExistsIff(cfg.utf, line.buf);
    if Kills(c) {
      assert c % 256 == c < 0x80;
    }
  }

  // ------------------------------------------------------------------
  // Whole characters

  /** The bytes of one character: its first byte, then continuation bytes. */
  predicate Character(utf: bool, ch: seq<Byte>) {
    && ch != [] && !(utf && 0x80 <= ch[0] < 0xc0)
    && forall i :: 0 < i < |ch| ==> utf && 0x80 <= ch[i] < 0xc0
  }

  /** Backspace takes off exactly the last character. */
  lemma ErasesOneCharacter(cfg: Config, front: seq<Byte>, ch: seq<Byte>, c: nat)
    requires Character(cfg.utf, ch) && (c == BS || c == DEL)
    ensures StaysInLine(cfg, Line(front + ch, false), c)
    ensures Step(cfg, Line(front + ch, false), c) == (Line(front, false), Rubout(cfg, ch))
  {
    hide Rubout;
    var buf := front + ch;
    assert buf[|front|] == ch[0];
    forall j | |front| < j < |buf|
      ensures !CharStart(cfg.utf, buf[j])
    {
      assert buf[j] == ch[j - |front|];
    }
    LastStartMeans(cfg.utf, buf, |front|);
    assert buf[..|front|] == front && buf[|front|..] == ch;
  }

  // ------------------------------------------------------------------
  // The screen, as a terminal would show it

  /** Where the cursor goes when a byte is written. */
  function Moved(utf: bool, col: int, b: Byte): int {
    if b == 8 then col - 1
    else if b == 10 || b == 13 then 0
    else if 32 <= b <= 126 then col + 1
    else if (utf && b >= 0xc0) || (!utf && b >= 0xa0) then col + 1
    else col
  }

  function Column(utf: bool, col: int, text: seq<Byte>): int
    decreases |text|
  {
    if text == [] then col else Column(utf, Moved(utf, col, text[0]), text[1..])
  }

  /** The cursor never goes back beyond where the line began. */
  predicate OnLine(utf: bool, col: int, text: seq<Byte>)
    decreases |text|
  {
    col >= 0 && (text == [] || OnLine(utf, Moved(utf, col, text[0]), text[1..]))
  }

  function ScreenText(outs: seq<Out>): seq<Byte> {
    if outs == [] then []
    else ScreenText(outs[..|outs| - 1]) + (if outs[|outs| - 1].Screen? then outs[|outs| - 1].text else [])
  }

  lemma {:induction false} ColumnJoins(utf: bool, col: int, a: seq<Byte>, b: seq<Byte>)
    ensures Column(utf, col, a + b) == Column(utf, Column(utf, col, a), b)
    ensures OnLine(utf, col, a + b) <==> OnLine(utf, col, a) && OnLine(utf, Column(utf, col, a), b)
    decreases |a|
  {
    if a == [] {
      assert a + b == b;
    } else {
      assert (a + b)[1..] == a[1..] + b;
      ColumnJoins(utf, Moved(utf, col, a[0]), a[1..], b);
    }
  }

  lemma {:induction false} ScreenTextJoins(a: seq<Out>, b: seq<Out>)
    ensures ScreenText(a + b) == ScreenText(a) + ScreenText(b)
  {
    if b == [] {
      assert a + b == a;
    } else {
      assert (a + b)[..|a + b| - 1] == a + b[..|b| - 1];
      ScreenTextJoins(a, b[..|b| - 1]);
    }
  }

  /** From column `col` the outputs lead to column `end` without going back beyond 0. */
  ghost predicate Leads(utf: bool, col: int, outs: seq<Out>, end: int) {
    Column(utf, col, ScreenText(outs)) == end && OnLine(utf, col, ScreenText(outs))
  }

  lemma LeadsJoin(utf: bool, col: int, a: seq<Out>, mid: int, b: seq<Out>, end: int)
    requires Leads(utf, col, a, mid) && Leads(utf, mid, b, end)
    ensures Leads(utf, col, a + b, end)
  {
    ScreenTextJoins(a, b);
    ColumnJoins(utf, col, ScreenText(a), ScreenText(b));
  }

  lemma LeadsQuietly(utf: bool, col: nat, out: Out)
    requires !out.Screen?
    ensures Leads(utf, col, [out], col) && Leads(utf, col, [], col)
  {
    assert [out][..0] == [];
  }

  lemma ScreenOfOne(text: seq<Byte>)
    ensures ScreenText([Screen(text)]) == text
  {
    assert [Screen(text)][..0] == [];
  }

  lemma WriteByte(utf: bool, col: nat, b: Byte, rest: seq<Byte>)
    ensures Column(utf, col, [b] + rest) == Column(utf, Moved(utf, col, b), rest)
    ensures OnLine(utf, col, [b] + rest) <==> OnLine(utf, Moved(utf, col, b), rest)
  {
    assert ([b] + rest)[1..] == rest;
  }

  lemma WritePlain(utf: bool, col: nat, text: seq<Byte>)
    requires |text| <= 4 && forall i :: 0 <= i < |text| ==> 32 <= text[i] <= 126
    ensures Column(utf, col, text) == col + |text| && OnLine(utf, col, text)
    decreases |text|
  {
    if text != [] {
      WriteByte(utf, col, text[0], text[1..]);
      assert text == [text[0]] + text[1..];
      WritePlain(utf, col + 1, text[1..]);
    }
  }

  /** A byte takes as many columns as the editor counts for it. */
  lemma ByteTakesItsWidth(utf: bool, col: nat, c: Byte)
    ensures Leads(utf, col, [Screen(PWrite(utf, c))], col + PLen(utf, c))
  {
    var text := PWrite(utf, c);
    ScreenOfOne(text);
    if |text| == 1 {
      assert text == [c] + [];
      WriteByte(utf, col, c, []);
    } else {
      WritePlain(utf, col, text);
    }
  }

  lemma RubLeads(utf: bool, col: nat)
    requires col > 0
    ensures Leads(utf, col, [RUB], col - 1)
  {
    hide Column, OnLine;
    ScreenOfOne([8, 32, 8]);
    WriteByte(utf, col, 8, [32] + ([8] + []));
    WriteByte(utf, col - 1, 32, [8] + []);
    WriteByte(utf, col, 8, []);
    EmptyText(utf, col - 1);
    assert [8, 32, 8] == [8] + ([32] + ([8] + []));
  }

  lemma EmptyText(utf: bool, col: nat)
    ensures Column(utf, col, []) == col && OnLine(utf, col, [])
  {
  }

  lemma {:induction false} RubsLead(utf: bool, col: nat, n: nat)
    requires n <= col
    ensures Leads(utf, col, Repeat(RUB, n), col - n)
  {
    hide Leads;
    if n == 0 {
      LeadsQuietly(utf, col, Special(EndOfLine));
    } else {
      RubsLead(utf, col, n - 1);
      RubLeads(utf, col - n + 1);
      LeadsJoin(utf, col, Repeat(RUB, n - 1), col - n + 1, [RUB], col - n);
    }
  }

  lemma {:induction false} WidthJoins(utf: bool, a: seq<Byte>, b: seq<Byte>)
    ensures Width(utf, a + b) == Width(utf, a) + Width(utf, b)
  {
    if a == [] {
      assert a + b == b;
    } else {
      assert (a + b)[1..] == a[1..] + b;
      WidthJoins(utf, a[1..], b);
    }
  }

  lemma WidthOfOne(utf: bool, c: Byte)
    ensures Width(utf, [c]) == PLen(utf, c)
  {
    assert [c][1..] == [];
  }

  lemma {:induction false} ShownLeads(utf: bool, buf: seq<Byte>)
    ensures Leads(utf, 0, Shown(utf, buf), Width(utf, buf))
  {
    hide Leads, PWrite, PLen;
    if buf == [] {
      LeadsQuietly(utf, 0, Special(EndOfLine));
    } else {
      var front, c := buf[..|buf| - 1], buf[|buf| - 1];
      assert buf == front + [c];
      ShownLeads(utf, front);
      WidthJoins(utf, front, [c]);
      WidthOfOne(utf, c);
      ByteTakesItsWidth(utf, Width(utf, front), c);
      LeadsJoin(utf, 0, Shown(utf, front), Width(utf, front), [Screen(PWrite(utf, c))], Width(utf, buf));
    }
  }

  lemma CutLeads(cfg: Config, line: Line, k: nat)
    requires cfg.echo && k <= |line.buf|
    ensures Leads(cfg.utf, Width(cfg.utf, line.buf), CutTo(cfg, line, k).1, Width(cfg.utf, line.buf[..k]))
  {
    hide Leads;
    assert line.buf == line.buf[..k] + line.buf[k..];
    WidthJoins(cfg.utf, line.buf[..k], line.buf[k..]);
    RubsLead(cfg.utf, Width(cfg.utf, line.buf), Width(cfg.utf, line.buf[k..]));
  }

  lemma InsertLeads(cfg: Config, line: Line, c: nat)
    requires cfg.echo
    ensures Leads(cfg.utf, Width(cfg.utf, line.buf), Inserted(cfg, line, c).1,
                  Width(cfg.utf, Inserted(cfg, line, c).0.buf))
  {
    hide Leads, PWrite, PLen;
    WidthJoins(cfg.utf, line.buf, [c % 256]);
    WidthOfOne(cfg.utf, c % 256);
    ByteTakesItsWidth(cfg.utf, Width(cfg.utf, line.buf), c % 256);
  }

  lemma NewLineLeads(utf: bool, col: nat)
    ensures Leads(utf, col, [Screen([CR, 10])], 0)
    ensures Leads(utf, col, [Screen(['^' as int, 'R' as int, CR, 10])], 0)
  {
    hide Column, OnLine;
    WriteByte(utf, col, CR, [10] + []);
    WriteByte(utf, 0, 10, []);
    EmptyText(utf, 0);
    var text: seq<Byte> := [CR, 10];
    ScreenOfOne(text);
    assert text == [CR] + ([10] + []);
    WriteByte(utf, col, '^' as int, ['R' as int] + text);
    WriteByte(utf, col + 1, 'R' as int, text);
    WriteByte(utf, col + 2, CR, [10] + []);
    ScreenOfOne(['^' as int, 'R' as int, CR, 10]);
    assert ['^' as int, 'R' as int, CR, 10] == ['^' as int] + (['R' as int] + text);
  }

  lemma LineEndLeads(cfg: Config, buf: seq<Byte>, col: nat)
    requires cfg.echo
    ensures Leads(cfg.utf, col, LineEnd(cfg, buf), 0)
  {
    hide Leads;
    var sent: seq<Out> := if buf != [] then [Send(buf)] else [];
    var end := if cfg.protocol == Raw then Send([CR, 10])
      else if cfg.protocol == Telnet && cfg.telnetNewline then Special(EndOfLine)
      else Send([CR]);
    LeadsQuietly(cfg.utf, col, Send(buf));
    LeadsQuietly(cfg.utf, col, end);
    NewLineLeads(cfg.utf, col);
    LeadsJoin(cfg.utf, col, sent, col, [end], col);
    LeadsJoin(cfg.utf, col, sent + [end], col, [Screen([CR, 10])], 0);
  }

  lemma KillLeads(cfg: Config, line: Line, c: nat)
    requires cfg.echo
    ensures Leads(cfg.utf, Width(cfg.utf, line.buf), Killed(cfg, line, c).1,
                  Width(cfg.utf, Killed(cfg, line, c).0.buf))
  {
    hide Leads, Rubout, Inserted, Width;
    var w, cut, el := Width(cfg.utf, line.buf), CutTo(cfg, line, 0), [Special(EraseLine)];
    CutLeads(cfg, line, 0);
    assert line.buf[..0] == [];
    var z := Width(cfg.utf, []);
    LeadsQuietly(cfg.utf, z, Special(EraseLine));
    LeadsJoin(cfg.utf, w, cut.1, z, el, z);
    if cfg.telnetKeyboard {
      LeadsQuietly(cfg.utf, z, Special(Interrupt));
      LeadsQuietly(cfg.utf, z, Special(Suspend));
      LeadsQuietly(cfg.utf, z, Special(Abort));
      LeadsJoin(cfg.utf, w, cut.1 + el, z, Signal(c), z);
    } else {
      InsertLeads(cfg, cut.0, c);
      var inserted := Inserted(cfg, cut.0, c);
      LeadsJoin(cfg.utf, w, cut.1 + el, z, inserted.1, Width(cfg.utf, inserted.0.buf));
    }
  }

  /** ^D sends an unfinished line as it stands: the next line begins where the cursor is. */
  predicate SendsUnfinished(line: Line, c: nat) {
    !line.quote && c == CTRL_D && line.buf != []
  }

  /** One key keeps the screen in step with the line, and never rubs out more than was shown. */
  lemma StepKeepsEcho(cfg: Config, line: Line, c: nat)
    requires cfg.echo && StaysInLine(cfg, line, c)
    ensures var w, r := Width(cfg.utf, line.buf), Step(cfg, line, c);
      Leads(cfg.utf, w, r.1, if SendsUnfinished(line, c) then w else Width(cfg.utf, r.0.buf))
  {
    hide Leads, Rubout, Inserted, Killed, LineEnd, Shown, LastStart, WordStart;
    var w, buf := Width(cfg.utf, line.buf), line.buf;
    InsertLeads(cfg, line, c);
    KillLeads(cfg, line, c);
    LineEndLeads(cfg, buf, w);
    LeadsQuietly(cfg.utf, w, Send(buf));
    LeadsQuietly(cfg.utf, w, Special(EndOfFile));
    if line.quote {
    } else if c == BS || c == DEL {
      CutLeads(cfg, line, if buf == [] then 0 else LastStart(cfg.utf, buf));
    } else if c == CTRL_W {
      CutLeads(cfg, line, WordStart(buf));
    } else if c == CTRL_R {
      NewLineLeads(cfg.utf, w);
      ShownLeads(cfg.utf, buf);
      LeadsJoin(cfg.utf, w, [Screen(['^' as int, 'R' as int, CR, 10])], 0, Shown(cfg.utf, buf), w);
    } else if EndsRawLine(cfg, line, c) {
      RawLineLeads(cfg, line);
    }
  }

  lemma RawLineLeads(cfg: Config, line: Line)
    requires cfg.echo && line.buf != [] && line.buf[|line.buf| - 1] == CR
    ensures Leads(cfg.utf, Width(cfg.utf, line.buf), Rubout(cfg, [CR]) + LineEnd(cfg, line.buf[..|line.buf| - 1]), 0)
  {
    hide Leads, LineEnd;
    var front := line.buf[..|line.buf| - 1];
    assert line.buf[|line.buf| - 1..] == [CR];
    CutLeads(cfg, line, |front|);
    LineEndLeads(cfg, front, Width(cfg.utf, front));
    LeadsJoin(cfg.utf, Width(cfg.utf, line.buf), Rubout(cfg, [CR]), Width(cfg.utf, front), LineEnd(cfg, front), 0);
  }

  /** The cursor's distance from where the current line began, key after key. */
  function Shift(cfg: Config, line: Line, col: int, codes: seq<nat>): int
    requires Safe(cfg, line, codes)
    decreases |codes|
  {
    if codes == [] then col
    else
      var r := Step(cfg, line, codes[0]);
      Shift(cfg, r.0, if SendsUnfinished(line, codes[0]) then 0 else Column(cfg.utf, col, ScreenText(r.1)), codes[1..])
  }

  /** At no time in the run does the cursor go back beyond where its line began. */
  predicate NeverBack(cfg: Config, line: Line, col: int, codes: seq<nat>)
    requires Safe(cfg, line, codes)
    decreases |codes|
  {
    codes == []
    || var r := Step(cfg, line, codes[0]);
       && OnLine(cfg.utf, col, ScreenText(r.1))
       && NeverBack(cfg, r.0,
                    if SendsUnfinished(line, codes[0]) then 0 else Column(cfg.utf, col, ScreenText(r.1)), codes[1..])
  }

  /** Over every run the columns echoed less those rubbed out are the width of the line. */
  lemma {:induction false} EchoStaysInStep(cfg: Config, line: Line, codes: seq<nat>)
    requires cfg.echo && Safe(cfg, line, codes)
    ensures Shift(cfg, line, Width(cfg.utf, line.buf), codes) == Width(cfg.utf, Run(cfg, line, codes).0.buf)
    ensures NeverBack(cfg, line, Width(cfg.utf, line.buf), codes)
    decreases |codes|
  {
    hide Step, Column, ScreenText, OnLine;
    if codes != [] {
      var r := Step(cfg, line, codes[0]);
      StepKeepsEcho(cfg, line, codes[0]);
      if SendsUnfinished(line, codes[0]) {
        UnfinishedIsSent(cfg, line);
      }
      EchoStaysInStep(cfg, r.0, codes[1..]);
    }
  }

  lemma UnfinishedIsSent(cfg: Config, line: Line)
    requires SendsUnfinished(line, CTRL_D)
    ensures Step(cfg, line, CTRL_D) == (Line([], false), [Send(line.buf)])
  {
  }

  // ------------------------------------------------------------------
  // Echo changes nothing but the screen

  function Quiet(cfg: Config): Config {
    cfg.(echo := false)
  }

  /** What the back end gets to hear. */
  function Heard(outs: seq<Out>): seq<Out> {
    if outs == [] then []
    else Heard(outs[..|outs| - 1]) + (if outs[|outs| - 1].Screen? then [] else [outs[|outs| - 1]])
  }

  lemma {:induction false} HeardJoins(a: seq<Out>, b: seq<Out>)
    ensures Heard(a + b) == Heard(a) + Heard(b)
  {
    if b == [] {
      assert a + b == a;
    } else {
      assert (a + b)[..|a + b| - 1] == a + b[..|b| - 1];
      HeardJoins(a, b[..|b| - 1]);
    }
  }

  lemma {:induction false} ScreenIsNotHeard(outs: seq<Out>)
    requires forall i :: 0 <= i < |outs| ==> outs[i].Screen?
    ensures Heard(outs) == []
  {
    if outs != [] {
      ScreenIsNotHeard(outs[..|outs| - 1]);
    }
  }

  lemma {:induction false} RestIsHeard(outs: seq<Out>)
    requires forall i :: 0 <= i < |outs| ==> !outs[i].Screen?
    ensures Heard(outs) == outs
  {
    if outs != [] {
      RestIsHeard(outs[..|outs| - 1]);
    }
  }

  lemma {:induction false} ShownIsScreen(utf: bool, buf: seq<Byte>)
    ensures forall i :: 0 <= i < |Shown(utf, buf)| ==> Shown(utf, buf)[i].Screen?
  {
    if buf != [] {
      ShownIsScreen(utf, buf[..|buf| - 1]);
    }
  }

  lemma InsertHeard(cfg: Config, line: Line, c: nat)
    ensures Inserted(Quiet(cfg), line, c) == (Inserted(cfg, line, c).0, Heard(Inserted(cfg, line, c).1))
  {
    hide PWrite;
    ScreenIsNotHeard(Inserted(cfg, line, c).1);
  }

  lemma CutHeard(cfg: Config, line: Line, k: nat)
    requires k <= |line.buf|
    ensures CutTo(Quiet(cfg), line, k) == (CutTo(cfg, line, k).0, Heard(CutTo(cfg, line, k).1))
  {
    hide Width;
    ScreenIsNotHeard(CutTo(cfg, line, k).1);
  }

  lemma LineEndHeard(cfg: Config, buf: seq<Byte>)
    ensures LineEnd(Quiet(cfg), buf) == Heard(LineEnd(cfg, buf))
  {
    hide Heard;
    var quiet := LineEnd(Quiet(cfg), buf);
    var echo: seq<Out> := if cfg.echo then [Screen([CR, 10])] else [];
    assert LineEnd(cfg, buf) == quiet + echo;
    HeardJoins(quiet, echo);
    RestIsHeard(quiet);
    ScreenIsNotHeard(echo);
  }

  lemma KillHeard(cfg: Config, line: Line, c: nat)
    ensures Killed(Quiet(cfg), line, c) == (Killed(cfg, line, c).0, Heard(Killed(cfg, line, c).1))
  {
    hide Heard, Inserted, Rubout;
    var cut, el := CutTo(cfg, line, 0), [Special(EraseLine)];
    CutHeard(cfg, line, 0);
    RestIsHeard(el);
    HeardJoins(cut.1, el);
    if cfg.telnetKeyboard {
      RestIsHeard(Signal(c));
      HeardJoins(cut.1 + el, Signal(c));
    } else {
      InsertHeard(cfg, cut.0, c);
      HeardJoins(cut.1 + el, Inserted(cfg, cut.0, c).1);
    }
  }

  lemma StepHeard(cfg: Config, line: Line, c: nat)
    requires StaysInLine(cfg, line, c)
    ensures Step(Quiet(cfg), line, c) == (Step(cfg, line, c).0, Heard(Step(cfg, line, c).1))
  {
    hide Heard, CutTo, Inserted, Killed, LineEnd, Rubout, Shown, LastStart, WordStart;
    InsertHeard(cfg, line, c);
    KillHeard(cfg, line, c);
    LineEndHeard(cfg, line.buf);
    RestIsHeard([Send(line.buf)]);
    RestIsHeard([Special(EndOfFile)]);
    RestIsHeard([]);
    if line.quote {
    } else if c == BS || c == DEL {
      CutHeard(cfg, line, if line.buf == [] then 0 else LastStart(cfg.utf, line.buf));
    } else if c == CTRL_W {
      CutHeard(cfg, line, WordStart(line.buf));
    } else if c == CTRL_R {
      ShownIsScreen(cfg.utf, line.buf);
      ScreenIsNotHeard([Screen(['^' as int, 'R' as int, CR, 10])] + Shown(cfg.utf, line.buf));
    } else if EndsRawLine(cfg, line, c) {
      RawLineHeard(cfg, line.buf[..|line.buf| - 1]);
    }
  }

  lemma RawLineHeard(cfg: Config, front: seq<Byte>)
    ensures Rubout(Quiet(cfg), [CR]) + LineEnd(Quiet(cfg), front) == Heard(Rubout(cfg, [CR]) + LineEnd(cfg, front))
  {
    hide Heard, LineEnd, Width;
    ScreenIsNotHeard(Rubout(cfg, [CR]));
    LineEndHeard(cfg, front);
    HeardJoins(Rubout(cfg, [CR]), LineEnd(cfg, front));
  }

  /** With or without echo the back end hears the same, and without echo nothing is written. */
  lemma {:induction false} EchoOnlyAddsScreen(cfg: Config, line: Line, codes: seq<nat>)
    requires Safe(cfg, line, codes)
    ensures Safe(Quiet(cfg), line, codes)
    ensures Run(Quiet(cfg), line, codes) == (Run(cfg, line, codes).0, Heard(Run(cfg, line, codes).1))
    decreases |codes|
  {
    hide Step;
    if codes != [] {
      StepHeard(cfg, line, codes[0]);
      var r := Step(cfg, line, codes[0]);
      EchoOnlyAddsScreen(cfg, r.0, codes[1..]);
      HeardJoins(r.1, Run(cfg, r.0, codes[1..]).1);
    }
  }

  /** Whether a run stays in its line does not depend on echo. */
  lemma {:induction false} EchoIsSafe(cfg: Config, line: Line, codes: seq<nat>)
    requires Safe(Quiet(cfg), line, codes)
    ensures Safe(cfg, line, codes)
    decreases |codes|
  {
    hide Step;
    if codes != [] {
      StepHeard(cfg, line, codes[0]);
      EchoIsSafe(cfg, Step(cfg, line, codes[0]).0, codes[1..]);
    }
  }

  // ------------------------------------------------------------------
  // A line of whole characters

  /** The bytes of one character as UTF-8 has it: only a byte from 0xc0 up has others after it. */
  predicate WholeCharacter(utf: bool, ch: seq<Byte>) {
    && Character(utf, ch)
    && (|ch| > 1 ==> utf && ch[0] >= 0xc0)
  }

  /** The keys that do more than put themselves into the line: special keys, and the control characters. */
  predicate Commands(c: nat) {
    || c == 0x108 || c == 0x17f || c == 0x10d
    || c == 0x03 || c == 0x04 || c == 0x0a || c == 0x12 || c == 0x15 || c == 0x16 || c == 0x17 || c == 0x1a || c == 0x1c
  }

  /** What goes with erasing the line: nothing, or a signal. */
  datatype Killing = EraseOnly | Interrupting | Suspending | Aborting

  /**
   What a user types: a character, its first byte perhaps from a special key; a quoted one, which may
   start with any key; or a key that edits, sends or signals.
   */
  datatype Typed = Char(c: nat, tail: seq<Byte>) | Quoted(c: nat, tail: seq<Byte>)
                 | Backspace | Delete | EraseWord | Kill(killing: Killing) | Redraw | Submit | LineFeed | Enter

  predicate ValidTyped(utf: bool, t: Typed) {
    match t
    case Char(c, tail) => !Commands(c) && WholeCharacter(utf, [c % 256] + tail)
    case Quoted(c, tail) => WholeCharacter(utf, [c % 256] + tail)
    case _ => true
  }

  predicate AllValid(utf: bool, typed: seq<Typed>) {
    forall i :: 0 <= i < |typed| ==> ValidTyped(utf, typed[i])
  }

  predicate Characters(utf: bool, chars: seq<seq<Byte>>) {
    forall i :: 0 <= i < |chars| ==> WholeCharacter(utf, chars[i])
  }

  predicate IsBlank(ch: seq<Byte>) {
    |ch| == 1 && (9 <= ch[0] <= 13 || ch[0] == 32)
  }

  /** Index of the last character that follows white space without being any, or 0. */
  function LastWord(chars: seq<seq<Byte>>): (k: nat)
    ensures k <= |chars|
  {
    if |chars| <= 1 then 0
    else if IsBlank(chars[|chars| - 2]) && !IsBlank(chars[|chars| - 1]) then |chars| - 1
    else LastWord(chars[..|chars| - 1])
  }

  /** The key of a kill, and the command it sends after the one to erase the line. */
  function KillKey(killing: Killing): nat {
    match killing
    case EraseOnly => 0x15
    case Interrupting => 0x03
    case Suspending => 0x1a
    case Aborting => 0x1c
  }

  function KillCommand(killing: Killing): seq<Out> {
    match killing
    case EraseOnly => []
    case Interrupting => [Special(Interrupt)]
    case Suspending => [Special(Suspend)]
    case Aborting => [Special(Abort)]
  }

  /** What is sent when a line ends: the line, if there is any, and its end in the protocol's own way. */
  function LineSent(cfg: Config, chars: seq<seq<Byte>>): seq<Out> {
    var end := match cfg.protocol
      case Raw => Send([13, 10])
      case Telnet => if cfg.telnetNewline then Special(EndOfLine) else Send([13])
      case Other => Send([13]);
    if chars == [] then [end] else [Send(Join(chars)), end]
  }

  /** An editor of whole characters, and what the back end hears of it. */
  function Edit(cfg: Config, chars: seq<seq<Byte>>, t: Typed): (seq<seq<Byte>>, seq<Out>) {
    match t
    case Char(c, tail) => (chars + [[c % 256] + tail], [])
    case Quoted(c, tail) => (chars + [[c % 256] + tail], [])
    case Backspace => (if chars == [] then [] else chars[..|chars| - 1], [])
    case Delete => (if chars == [] then [] else chars[..|chars| - 1], [])
    case EraseWord => (chars[..LastWord(chars)], [])
    case Kill(killing) =>
      if cfg.telnetKeyboard then ([], [Special(EraseLine)] + KillCommand(killing))
      else ([[KillKey(killing)]], [Special(EraseLine)])
    case Redraw => (chars, [])
    case Submit => ([], if chars == [] then [Special(EndOfFile)] else [Send(Join(chars))])
    case LineFeed =>
      if cfg.protocol == Raw && chars != [] && chars[|chars| - 1] == [13] then
        ([], LineSent(cfg, chars[..|chars| - 1]))
      else (chars + [[10]], [])
    case Enter => ([], LineSent(cfg, chars))
  }

  function EditAll(cfg: Config, chars: seq<seq<Byte>>, typed: seq<Typed>): (seq<seq<Byte>>, seq<Out>)
    decreases |typed|
  {
    if typed == [] then (chars, [])
    else
      var first := Edit(cfg, chars, typed[0]);
      var rest := EditAll(cfg, first.0, typed[1..]);
      (rest.0, first.1 + rest.1)
  }

  function Keys(t: Typed): seq<nat> {
    match t
    case Char(c, tail) => [c] + tail
    case Quoted(c, tail) => [0x16, c] + tail
    case Backspace => [0x108]
    case Delete => [0x17f]
    case EraseWord => [0x17]
    case Kill(killing) => [KillKey(killing)]
    case Redraw => [0x12]
    case Submit => [0x04]
    case LineFeed => [0x0a]
    case Enter => [0x10d]
  }

  function AllKeys(typed: seq<Typed>): seq<nat> {
    if typed == [] then [] else Keys(typed[0]) + AllKeys(typed[1..])
  }

  lemma RunOne(cfg: Config, line: Line, c: nat)
    requires StaysInLine(cfg, line, c)
    ensures Safe(cfg, line, [c]) && Run(cfg, line, [c]) == Step(cfg, line, c)
  {
    hide Step;
    var r := Step(cfg, line, c);
    assert [c][1..] == [] && r.1 + [] == r.1;
    assert Safe(cfg, r.0, []);
  }

  /** Continuation bytes put themselves into the line. */
  lemma {:induction false} TypeTail(cfg: Config, buf: seq<Byte>, tail: seq<Byte>)
    requires !cfg.echo && forall i :: 0 <= i < |tail| ==> tail[i] >= 0x80
    ensures Safe(cfg, Line(buf, false), tail)
    ensures Run(cfg, Line(buf, false), tail) == (Line(buf + tail, false), [])
    decreases |tail|
  {
    hide LineEnd, Killed, LastStart, WordStart, Rubout;
    if tail == [] {
      assert buf + tail == buf;
    } else {
      assert Step(cfg, Line(buf, false), tail[0]) == (Line(buf + [tail[0]], false), []);
      TypeTail(cfg, buf + [tail[0]], tail[1..]);
      assert buf + [tail[0]] + tail[1..] == buf + tail;
      var none: seq<Out> := [];
      assert none + none == none;
    }
  }

  /** A key that puts itself into the line, and the rest of its character. */
  lemma TypeCharacter(cfg: Config, line: Line, c: nat, tail: seq<Byte>)
    requires !cfg.echo && WholeCharacter(cfg.utf, [c % 256] + tail) && (line.quote || !Commands(c))
    ensures Safe(cfg, line, [c] + tail)
    ensures Run(cfg, line, [c] + tail) == (Line(line.buf + ([c % 256] + tail), false), [])
  {
    hide Step, Safe, Run, WholeCharacter;
    var next := Line(line.buf + [c % 256], false);
    TailBytes(cfg.utf, c % 256, tail);
    KeyInserts(cfg, line, c);
    RunOne(cfg, line, c);
    TypeTail(cfg, next.buf, tail);
    SafeJoins(cfg, line, [c], tail);
    RunSplits(cfg, line, [c], tail);
    assert line.buf + [c % 256] + tail == line.buf + ([c % 256] + tail);
    var none: seq<Out> := [];
    assert none + none == none;
  }

  lemma KeyInserts(cfg: Config, line: Line, c: nat)
    requires !cfg.echo && (line.quote || !Commands(c))
    ensures StaysInLine(cfg, line, c) && Step(cfg, line, c) == (Line(line.buf + [c % 256], false), [])
  {
    hide Rubout, LineEnd, Killed, LastStart, WordStart, Shown;
  }

  lemma TailBytes(utf: bool, first: Byte, tail: seq<Byte>)
    requires WholeCharacter(utf, [first] + tail)
    ensures forall i :: 0 <= i < |tail| ==> tail[i] >= 0x80
  {
    var ch := [first] + tail;
    forall i | 0 <= i < |tail|
      ensures tail[i] >= 0x80
    {
      var j := i + 1;
      assert tail[i] == ch[j] && !CharStart(utf, ch[j]);
    }
  }

  lemma JoinOne(chars: seq<seq<Byte>>, ch: seq<Byte>)
    ensures Join(chars + [ch]) == Join(chars) + ch
    ensures Join([ch]) == ch
  {
    assert (chars + [ch])[..|chars|] == chars && [ch][..0] == [];
  }

  lemma QuotedOnce(cfg: Config, buf: seq<Byte>, c: nat, tail: seq<Byte>)
    requires !cfg.echo && WholeCharacter(cfg.utf, [c % 256] + tail)
    ensures Safe(cfg, Line(buf, false), [CTRL_V, c] + tail)
    ensures Run(cfg, Line(buf, false), [CTRL_V, c] + tail) == (Line(buf + ([c % 256] + tail), false), [])
  {
    hide Safe, Run, WholeCharacter;
    var line, quoted := Line(buf, false), Line(buf, true);
    assert Step(cfg, line, CTRL_V) == (quoted, []);
    RunOne(cfg, line, CTRL_V);
    TypeCharacter(cfg, quoted, c, tail);
    SafeJoins(cfg, line, [CTRL_V], [c] + tail);
    assert [CTRL_V] + ([c] + tail) == [CTRL_V, c] + tail;
    RunSplits(cfg, line, [CTRL_V], [c] + tail);
  }

  lemma BackspaceOnce(cfg: Config, chars: seq<seq<Byte>>, key: nat)
    requires !cfg.echo && Characters(cfg.utf, chars) && (key == BS || key == DEL)
    ensures Safe(cfg, Line(Join(chars), false), [key])
    ensures Run(cfg, Line(Join(chars), false), [key])
         == (Line(Join(if chars == [] then [] else chars[..|chars| - 1]), false), [])
  {
    hide Safe, Run;
    if chars != [] {
      var ch := chars[|chars| - 1];
      ErasesOneCharacter(cfg, Join(chars[..|chars| - 1]), ch, key);
    }
    RunOne(cfg, Line(Join(chars), false), key);
  }

  /** In whole characters white space is a character of its own, so words begin with characters. */
  lemma LastByte(utf: bool, chars: seq<seq<Byte>>)
    requires Characters(utf, chars) && chars != []
    ensures var buf := Join(chars);
      && buf != []
      && IsSpace(buf[|buf| - 1]) == IsBlank(chars[|chars| - 1])
      && (buf[|buf| - 1] == CR <==> chars[|chars| - 1] == [CR])
  {
    var ch := chars[|chars| - 1];
    if |ch| > 1 {
      assert !CharStart(utf, ch[|ch| - 1]);
    }
  }

  /** Going back over one character's bytes finds a word at its first byte or at none of them. */
  lemma {:induction false} WordStartSkips(buf: seq<Byte>, ch: seq<Byte>, n: nat)
    requires 0 < n <= |ch| && buf != []
    requires forall i :: 0 <= i < n - 1 ==> !IsSpace(ch[i])
    ensures WordStart(buf + ch[..n])
         == if IsSpace(buf[|buf| - 1]) && !IsSpace(ch[0]) then |buf| else WordStart(buf)
  {
    var s := buf + ch[..n];
    assert s[..|s| - 1] == buf + ch[..n - 1];
    assert s[|s| - 1] == ch[n - 1];
    if n > 1 {
      assert s[|s| - 2] == ch[n - 2];
      WordStartSkips(buf, ch, n - 1);
    } else {
      assert buf + ch[..0] == buf;
    }
  }

  lemma {:induction false} WordStartOfOne(ch: seq<Byte>, n: nat)
    requires 0 < n <= |ch|
    requires forall i :: 0 <= i < n - 1 ==> !IsSpace(ch[i])
    ensures WordStart(ch[..n]) == 0
  {
    var s := ch[..n];
    if n > 1 {
      assert s[..n - 1] == ch[..n - 1] && s[n - 2] == ch[n - 2];
      WordStartOfOne(ch, n - 1);
    }
  }

  lemma NoBlankInside(utf: bool, ch: seq<Byte>)
    requires WholeCharacter(utf, ch)
    ensures forall i :: 0 <= i < |ch| - 1 ==> !IsSpace(ch[i])
    ensures IsSpace(ch[0]) == IsBlank(ch)
  {
    forall i | 0 <= i < |ch| - 1
      ensures !IsSpace(ch[i])
    {
      assert i > 0 ==> !CharStart(utf, ch[i]);
    }
  }

  /** ^W cuts back to the last word of the characters. */
  lemma {:induction false} WordStartOfCharacters(utf: bool, chars: seq<seq<Byte>>)
    requires Characters(utf, chars)
    ensures var k := LastWord(chars);
      WordStart(Join(chars)) == |Join(chars[..k])| && Join(chars)[..|Join(chars[..k])|] == Join(chars[..k])
  {
    hide WholeCharacter, IsSpace, IsBlank, Join, WordStart;
    if chars == [] {
      assert chars[..0] == chars;
      WordStartOfNothing();
    } else {
      var front, ch := chars[..|chars| - 1], chars[|chars| - 1];
      assert chars == front + [ch];
      WordStartOfCharacters(utf, front);
      WordStartOfLast(utf, front, ch);
      LastWordOf(chars);
      JoinOne(front, ch);
      var k := LastWord(chars);
      assert chars[..k] == front[..k];
    }
  }

  lemma WordStartOfNothing()
    ensures Join<Byte>([]) == [] && WordStart([]) == 0
  {
  }

  lemma LastWordOf(chars: seq<seq<Byte>>)
    requires chars != []
    ensures var front := chars[..|chars| - 1];
      LastWord(chars) == if front == [] then 0
        else if IsBlank(front[|front| - 1]) && !IsBlank(chars[|chars| - 1]) then |front|
        else LastWord(front)
    ensures LastWord(chars) < |chars|
  {
  }

  lemma WordStartOfLast(utf: bool, front: seq<seq<Byte>>, ch: seq<Byte>)
    requires Characters(utf, front) && WholeCharacter(utf, ch)
    ensures WordStart(Join(front) + ch)
         == if front == [] then 0
            else if IsBlank(front[|front| - 1]) && !IsBlank(ch) then |Join(front)|
            else WordStart(Join(front))
  {
    hide WholeCharacter, IsSpace, IsBlank, WordStart, Characters;
    assert ch[..|ch|] == ch;
    CharacterHasBytes(utf, ch);
    NoBlankInside(utf, ch);
    if front == [] {
      assert Join(front) + ch == ch;
      WordStartOfOne(ch, |ch|);
    } else {
      LastByte(utf, front);
      WordStartSkips(Join(front), ch, |ch|);
    }
  }

  lemma CharacterHasBytes(utf: bool, ch: seq<Byte>)
    requires WholeCharacter(utf, ch)
    ensures ch != []
  {
  }

  lemma EraseWordOnce(cfg: Config, chars: seq<seq<Byte>>)
    requires !cfg.echo && Characters(cfg.utf, chars)
    ensures Safe(cfg, Line(Join(chars), false), [CTRL_W])
    ensures Run(cfg, Line(Join(chars), false), [CTRL_W]) == (Line(Join(chars[..LastWord(chars)]), false), [])
  {
    hide Safe, Run, WordStart, LastWord, Characters, Join;
    WordStartOfCharacters(cfg.utf, chars);
    RunOne(cfg, Line(Join(chars), false), CTRL_W);
  }

  lemma KillOnce(cfg: Config, line: Line, c: nat)
    requires !cfg.echo && !line.quote && Kills(c)
    ensures Safe(cfg, line, [c])
    ensures Run(cfg, line, [c])
         == if cfg.telnetKeyboard then (Line([], false), [Special(EraseLine)] + Signal(c))
            else (Line([c % 256], false), [Special(EraseLine)])
  {
    hide Safe, Run, Signal;
    RunOne(cfg, line, c);
    assert line.buf[..0] == [] && Step(cfg, line, c) == Killed(cfg, line, c);
    var none: seq<Out> := [];
    assert none + [Special(EraseLine)] == [Special(EraseLine)];
    assert [Special(EraseLine)] + none == [Special(EraseLine)];
    assert [] + [c % 256] == [c % 256];
  }

  lemma PlainOnce(cfg: Config, line: Line)
    requires !cfg.echo && !line.quote
    ensures Safe(cfg, line, [CTRL_R]) && Run(cfg, line, [CTRL_R]) == (line, [])
    ensures Safe(cfg, line, [RETURN]) && Run(cfg, line, [RETURN]) == (Line([], false), LineEnd(cfg, line.buf))
    ensures Safe(cfg, line, [CTRL_D])
    ensures Run(cfg, line, [CTRL_D])
         == (Line([], false), if line.buf == [] then [Special(EndOfFile)] else [Send(line.buf)])
  {
    hide Safe, Run, LineEnd;
    RunOne(cfg, line, CTRL_R);
    RunOne(cfg, line, RETURN);
    RunOne(cfg, line, CTRL_D);
  }

  lemma LineFeedOnce(cfg: Config, line: Line)
    requires !cfg.echo && !line.quote
    ensures Safe(cfg, line, [CTRL_J])
    ensures Run(cfg, line, [CTRL_J])
         == if EndsRawLine(cfg, line, CTRL_J) then (Line([], false), LineEnd(cfg, line.buf[..|line.buf| - 1]))
            else (Line(line.buf + [CTRL_J], false), [])
  {
    hide Safe, Run, LineEnd;
    RunOne(cfg, line, CTRL_J);
    if EndsRawLine(cfg, line, CTRL_J) {
      var end := LineEnd(cfg, line.buf[..|line.buf| - 1]);
      assert [] + end == end;
    }
  }

  lemma LineFeedOnCharacters(cfg: Config, chars: seq<seq<Byte>>)
    requires !cfg.echo && Characters(cfg.utf, chars)
    ensures Safe(cfg, Line(Join(chars), false), [CTRL_J])
    ensures Run(cfg, Line(Join(chars), false), [CTRL_J])
         == (Line(Join(Edit(cfg, chars, LineFeed).0), false), Edit(cfg, chars, LineFeed).1)
  {
    hide Safe, Run, LineEnd, WholeCharacter;
    LineFeedOnce(cfg, Line(Join(chars), false));
    JoinOne(chars, [CTRL_J]);
    if chars != [] {
      LastByte(cfg.utf, chars);
      if chars[|chars| - 1] == [CR] {
        assert Join(chars)[..|Join(chars)| - 1] == Join(chars[..|chars| - 1]);
        LineIsSent(cfg, chars[..|chars| - 1]);
      }
    }
  }

  /** The keys of one thing typed do to the line what the editor of characters does. */
  ghost predicate EditsOnce(cfg: Config, chars: seq<seq<Byte>>, t: Typed) {
    && Safe(cfg, Line(Join(chars), false), Keys(t))
    && Run(cfg, Line(Join(chars), false), Keys(t))
         == (Line(Join(Edit(cfg, chars, t).0), false), Edit(cfg, chars, t).1)
  }

  lemma TypesOnce(cfg: Config, chars: seq<seq<Byte>>, t: Typed)
    requires !cfg.echo && Characters(cfg.utf, chars) && ValidTyped(cfg.utf, t) && (t.Char? || t.Quoted?)
    ensures EditsOnce(cfg, chars, t)
  {
    hide LineEnd, Safe, Run, LastWord, WholeCharacter, Commands, Signal, Characters, LineSent, Join;
    JoinOne(chars, [t.c % 256] + t.tail);
    if t.Char? {
      TypeCharacter(cfg, Line(Join(chars), false), t.c, t.tail);
    } else {
      QuotedOnce(cfg, Join(chars), t.c, t.tail);
    }
  }

  lemma ErasesOnce(cfg: Config, chars: seq<seq<Byte>>, t: Typed)
    requires !cfg.echo && Characters(cfg.utf, chars) && ValidTyped(cfg.utf, t)
    requires t.Backspace? || t.Delete? || t.EraseWord?
    ensures EditsOnce(cfg, chars, t)
  {
    hide LineEnd, Safe, Run, LastWord, WholeCharacter, Commands, Signal, Characters, LineSent, Join;
    if t.EraseWord? {
      EraseWordOnce(cfg, chars);
    } else {
      BackspaceOnce(cfg, chars, if t.Backspace? then 0x108 else 0x17f);
    }
  }

  lemma KillsOnce(cfg: Config, chars: seq<seq<Byte>>, t: Typed)
    requires !cfg.echo && Characters(cfg.utf, chars) && ValidTyped(cfg.utf, t) && t.Kill?
    ensures EditsOnce(cfg, chars, t)
  {
    hide LineEnd, Safe, Run, LastWord, WholeCharacter, Commands, Signal, Characters, LineSent, Join;
    KillOnce(cfg, Line(Join(chars), false), KillKey(t.killing));
    KillSignals(t.killing);
    JoinOne([], [KillKey(t.killing)]);
    JoinOfNone();
  }

  lemma SendsOnce(cfg: Config, chars: seq<seq<Byte>>, t: Typed)
    requires !cfg.echo && Characters(cfg.utf, chars) && ValidTyped(cfg.utf, t)
    requires t.Redraw? || t.Submit? || t.LineFeed? || t.Enter?
    ensures EditsOnce(cfg, chars, t)
  {
    hide LineEnd, Safe, Run, LastWord, WholeCharacter, Commands, Signal, Characters, LineSent, Join;
    PlainOnce(cfg, Line(Join(chars), false));
    JoinedIsEmpty(cfg.utf, chars);
    JoinOfNone();
    match t
    case LineFeed => LineFeedOnCharacters(cfg, chars);
    case Enter => LineIsSent(cfg, chars);
    case _ =>
  }

  lemma JoinOfNone()
    ensures Join<Byte>([]) == []
  {
  }

  /** One thing typed, without echo. */
  lemma EditOnce(cfg: Config, chars: seq<seq<Byte>>, t: Typed)
    requires !cfg.echo && Characters(cfg.utf, chars) && ValidTyped(cfg.utf, t)
    ensures EditsOnce(cfg, chars, t)
  {
    hide LineEnd, Safe, Run, LastWord, WholeCharacter, Commands, Signal, Characters;
    hide LineSent, Join, Edit, Keys, EditsOnce, ValidTyped;
    match t
    case Char(_, _) => TypesOnce(cfg, chars, t);
    case Quoted(_, _) => TypesOnce(cfg, chars, t);
    case Backspace => ErasesOnce(cfg, chars, t);
    case Delete => ErasesOnce(cfg, chars, t);
    case EraseWord => ErasesOnce(cfg, chars, t);
    case Kill(_) => KillsOnce(cfg, chars, t);
    case _ => SendsOnce(cfg, chars, t);
  }

  lemma KillSignals(killing: Killing)
    ensures Kills(KillKey(killing)) && KillKey(killing) < 256 && Signal(KillKey(killing)) == KillCommand(killing)
  {
  }

  /** The end of a line of characters, without echo. */
  lemma LineIsSent(cfg: Config, chars: seq<seq<Byte>>)
    requires !cfg.echo && Characters(cfg.utf, chars)
    ensures LineEnd(cfg, Join(chars)) == LineSent(cfg, chars)
  {
    hide Characters;
    JoinedIsEmpty(cfg.utf, chars);
  }

  lemma JoinedIsEmpty(utf: bool, chars: seq<seq<Byte>>)
    requires Characters(utf, chars)
    ensures Join(chars) == [] <==> chars == []
  {
    if chars != [] {
      LastByte(utf, chars);
    }
  }

  lemma EditKeepsCharacters(cfg: Config, chars: seq<seq<Byte>>, t: Typed)
    requires Characters(cfg.utf, chars) && ValidTyped(cfg.utf, t)
    ensures Characters(cfg.utf, Edit(cfg, chars, t).0)
  {
    hide LineEnd, LastWord, Signal;
  }

  lemma {:induction false} QuietEdits(cfg: Config, chars: seq<seq<Byte>>, typed: seq<Typed>)
    requires !cfg.echo && Characters(cfg.utf, chars) && AllValid(cfg.utf, typed)
    ensures Safe(cfg, Line(Join(chars), false), AllKeys(typed))
    ensures Run(cfg, Line(Join(chars), false), AllKeys(typed))
         == (Line(Join(EditAll(cfg, chars, typed).0), false), EditAll(cfg, chars, typed).1)
    decreases |typed|
  {
    hide Edit, Keys, Step, Join, ValidTyped, Characters;
    if typed != [] {
      var line, t := Line(Join(chars), false), typed[0];
      EditOnce(cfg, chars, t);
      EditKeepsCharacters(cfg, chars, t);
      QuietEdits(cfg, Edit(cfg, chars, t).0, typed[1..]);
      SafeJoins(cfg, line, Keys(t), AllKeys(typed[1..]));
      RunSplits(cfg, line, Keys(t), AllKeys(typed[1..]));
    }
  }

  lemma {:induction false} EditIgnoresEcho(cfg: Config, chars: seq<seq<Byte>>, typed: seq<Typed>)
    ensures EditAll(Quiet(cfg), chars, typed) == EditAll(cfg, chars, typed)
    decreases |typed|
  {
    hide LastWord, Join;
    if typed != [] {
      EditIgnoresEcho(cfg, Edit(cfg, chars, typed[0]).0, typed[1..]);
    }
  }

  /**
   Whatever is typed in whole characters, with echo or without: the byte editor holds the bytes of what the
   character editor holds, and the back end hears exactly what the character editor sends.
   */
  lemma EditsWholeCharacters(cfg: Config, chars: seq<seq<Byte>>, typed: seq<Typed>)
    requires Characters(cfg.utf, chars) && AllValid(cfg.utf, typed)
    ensures Safe(cfg, Line(Join(chars), false), AllKeys(typed))
    ensures var r := Run(cfg, Line(Join(chars), false), AllKeys(typed));
      && r.0 == Line(Join(EditAll(cfg, chars, typed).0), false)
      && Heard(r.1) == EditAll(cfg, chars, typed).1
  {
    hide Safe, Run, EditAll, AllKeys, Characters, AllValid, Heard, Join;
    var line, keys := Line(Join(chars), false), AllKeys(typed);
    QuietEdits(Quiet(cfg), chars, typed);
    EditIgnoresEcho(cfg, chars, typed);
    EchoIsSafe(cfg, line, keys);
    EchoOnlyAddsScreen(cfg, line, keys);
  }

  // ------------------------------------------------------------------
  // Lines

  /** Whole characters none of which is a command. */
  predicate Plain(utf: bool, chars: seq<seq<Byte>>) {
    Characters(utf, chars) && forall i :: 0 <= i < |chars| ==> chars[i] != [] && !Commands(chars[i][0])
  }

  /** A line of characters typed one by one, and Return. */
  function TypingLine(utf: bool, chars: seq<seq<Byte>>): seq<Typed>
    requires Plain(utf, chars)
  {
    if chars == [] then [Enter]
    else [Char(chars[0][0], chars[0][1..])] + TypingLine(utf, chars[1..])
  }

  function TypingLines(utf: bool, lines: seq<seq<seq<Byte>>>): seq<Typed>
    requires forall n :: 0 <= n < |lines| ==> Plain(utf, lines[n])
  {
    if lines == [] then [] else TypingLine(utf, lines[0]) + TypingLines(utf, lines[1..])
  }

  function LinesSent(cfg: Config, lines: seq<seq<seq<Byte>>>): seq<Out> {
    if lines == [] then [] else LineSent(cfg, lines[0]) + LinesSent(cfg, lines[1..])
  }

  lemma {:induction false} EditAllJoins(cfg: Config, chars: seq<seq<Byte>>, a: seq<Typed>, b: seq<Typed>)
    ensures var first, all := EditAll(cfg, chars, a), EditAll(cfg, chars, a + b);
      all == (EditAll(cfg, first.0, b).0, first.1 + EditAll(cfg, first.0, b).1)
    decreases |a|
  {
    hide Edit;
    if a == [] {
      assert a + b == b;
      assert [] + EditAll(cfg, chars, b).1 == EditAll(cfg, chars, b).1;
    } else {
      var first := Edit(cfg, chars, a[0]);
      assert (a + b)[1..] == a[1..] + b;
      EditAllJoins(cfg, first.0, a[1..], b);
      ConcatAssoc(first.1, EditAll(cfg, first.0, a[1..]).1, EditAll(cfg, EditAll(cfg, first.0, a[1..]).0, b).1);
    }
  }

  lemma {:induction false} LineIsEdited(cfg: Config, held: seq<seq<Byte>>, chars: seq<seq<Byte>>)
    requires Plain(cfg.utf, chars)
    ensures AllValid(cfg.utf, TypingLine(cfg.utf, chars))
    ensures EditAll(cfg, held, TypingLine(cfg.utf, chars)) == ([], LineSent(cfg, held + chars))
    decreases |chars|
  {
    hide WholeCharacter, Commands, LineSent;
    var none: seq<Out> := [];
    if chars == [] {
      assert held + chars == held && [Enter][1..] == [];
      assert LineSent(cfg, held) + none == LineSent(cfg, held);
    } else {
      var ch := chars[0];
      assert [ch[0] % 256] + ch[1..] == ch;
      LineIsEdited(cfg, held + [ch], chars[1..]);
      assert held + [ch] + chars[1..] == held + chars;
      assert TypingLine(cfg.utf, chars)[1..] == TypingLine(cfg.utf, chars[1..]);
      assert none + LineSent(cfg, held + chars) == LineSent(cfg, held + chars);
    }
  }

  /** Typed line by line, every line is sent once, in order, each with its end, and nothing is left. */
  lemma {:induction false} TypedLinesAreSent(cfg: Config, lines: seq<seq<seq<Byte>>>)
    requires forall n :: 0 <= n < |lines| ==> Plain(cfg.utf, lines[n])
    ensures AllValid(cfg.utf, TypingLines(cfg.utf, lines))
    ensures Safe(cfg, Line([], false), AllKeys(TypingLines(cfg.utf, lines)))
    ensures var r := Run(cfg, Line([], false), AllKeys(TypingLines(cfg.utf, lines)));
      r.0 == Line([], false) && Heard(r.1) == LinesSent(cfg, lines)
  {
    hide Safe, Run, EditAll, AllKeys, Heard, TypingLine, LineSent, Plain;
    LinesAreEdited(cfg, lines);
    JoinOfNone();
    EditsWholeCharacters(cfg, [], TypingLines(cfg.utf, lines));
  }

  lemma {:induction false} LinesAreEdited(cfg: Config, lines: seq<seq<seq<Byte>>>)
    requires forall n :: 0 <= n < |lines| ==> Plain(cfg.utf, lines[n])
    ensures AllValid(cfg.utf, TypingLines(cfg.utf, lines))
    ensures EditAll(cfg, [], TypingLines(cfg.utf, lines)) == ([], LinesSent(cfg, lines))
  {
    hide TypingLine, LineSent, Edit;
    if lines != [] {
      LineIsEdited(cfg, [], lines[0]);
      assert [] + lines[0] == lines[0];
      LinesAreEdited(cfg, lines[1..]);
      EditAllJoins(cfg, [], TypingLine(cfg.utf, lines[0]), TypingLines(cfg.utf, lines[1..]));
    }
  }
}
