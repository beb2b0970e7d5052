/**
 The line discipline object: a growing buffer and the loops that edit it.

 A call hands over some bytes.  With local editing on, each byte becomes a key code and the
 keys are handled one after another; with local editing off, what is left of a line is sent
 and taken off the screen, and the bytes are passed on.
 */
module LdiscEditor {
  import opened Bytes
  import opened Ldisc

  // ------------------------------------------------------------------
  // Input as the front end hands it over

  /** Some bytes; `special` ones come from special keys, `interactive` ones from the keyboard. */
  datatype Call = Call(bytes: seq<Byte>, special: bool, interactive: bool)

  /** The key code of one byte. */
  function KeyCode(call: Call, b: Byte): nat {
    var c := if call.special then KEY + b else b;
    if !call.interactive && c == CR then KEY + c else c
  }

  function Codes(call: Call, i: nat): (codes: seq<nat>)
    requires i <= |call.bytes|
    ensures |codes| == |call.bytes| - i
    decreases |call.bytes| - i
  {
    if i == |call.bytes| then [] else [KeyCode(call, call.bytes[i])] + Codes(call, i + 1)
  }

  lemma {:induction false} CodesSplit(call: Call, a: seq<Byte>, b: seq<Byte>, i: nat)
    requires call.bytes == a + b && i <= |a|
    ensures Codes(call, i) == Codes(call.(bytes := a), i) + Codes(call.(bytes := b), 0)
    decreases |a| - i
  {
    if i == |a| {
      CodesFrom(call, b, i, 0);
    } else {
      CodesSplit(call, a, b, i + 1);
    }
  }

  lemma {:induction false} CodesFrom(call: Call, b: seq<Byte>, i: nat, j: nat)
    requires i + |b| == |call.bytes| + j && j <= |b| && i <= |call.bytes| && call.bytes[i..] == b[j..]
    ensures Codes(call, i) == Codes(call.(bytes := b), j)
    decreases |b| - j
  {
    if j < |b| {
      assert call.bytes[i] == call.bytes[i..][0] == b[j];
      assert call.bytes[i + 1..] == call.bytes[i..][1..] == b[j + 1..];
      CodesFrom(call, b, i + 1, j + 1);
    }
  }

  /** One call, or two calls with a part of its bytes each: the same line and the same output. */
  lemma CallsSplit(cfg: Config, line: Line, call: Call, a: seq<Byte>, b: seq<Byte>)
    requires call.bytes == a + b && Safe(cfg, line, Codes(call, 0))
    ensures var first, second := Codes(call.(bytes := a), 0), Codes(call.(bytes := b), 0);
      && Safe(cfg, line, first) && Safe(cfg, Run(cfg, line, first).0, second)
      && Run(cfg, line, Codes(call, 0)).0 == Run(cfg, Run(cfg, line, first).0, second).0
      && Run(cfg, line, Codes(call, 0)).1 == Run(cfg, line, first).1 + Run(cfg, Run(cfg, line, first).0, second).1
  {
    CodesSplit(call, a, b, 0);
    RunSplits(cfg, line, Codes(call.(bytes := a), 0), Codes(call.(bytes := b), 0));
  }

  predicate PiecesSafe(cfg: Config, line: Line, call: Call, pieces: seq<seq<Byte>>)
    decreases |pieces|
  {
    pieces == []
    || var codes := Codes(call.(bytes := pieces[0]), 0);
       Safe(cfg, line, codes) && PiecesSafe(cfg, Run(cfg, line, codes).0, call, pieces[1..])
  }

  /** One call for each piece of the input. */
  function RunPieces(cfg: Config, line: Line, call: Call, pieces: seq<seq<Byte>>): (r: (Line, seq<Out>))
    requires PiecesSafe(cfg, line, call, pieces)
    decreases |pieces|
  {
    if pieces == [] then (line, [])
    else
      var first := Run(cfg, line, Codes(call.(bytes := pieces[0]), 0));
      var rest := RunPieces(cfg, first.0, call, pieces[1..]);
      (rest.0, first.1 + rest.1)
  }

  /** However the input is cut into calls, line and output are those of one call with all of it. */
  lemma {:induction false} CutsDoNotMatter(cfg: Config, line: Line, call: Call, pieces: seq<seq<Byte>>)
    requires call.bytes == Join(pieces) && Safe(cfg, line, Codes(call, 0))
    ensures PiecesSafe(cfg, line, call, pieces)
    ensures RunPieces(cfg, line, call, pieces) == Run(cfg, line, Codes(call, 0))
    decreases |pieces|
  {
    hide Safe, Run, Join, Codes;
    if pieces == [] {
      NoCodes(cfg, line, call, pieces);
    } else {
      JoinHead(pieces);
      var rest := call.(bytes := Join(pieces[1..]));
      CallsSplit(cfg, line, call, pieces[0], rest.bytes);
      CutsDoNotMatter(cfg, Run(cfg, line, Codes(call.(bytes := pieces[0]), 0)).0, rest, pieces[1..]);
      SamePieces(cfg, Run(cfg, line, Codes(call.(bytes := pieces[0]), 0)).0, call, rest, pieces[1..]);
    }
  }

  lemma NoCodes(cfg: Config, line: Line, call: Call, pieces: seq<seq<Byte>>)
    requires pieces == [] && call.bytes == Join(pieces)
    ensures Codes(call, 0) == [] && Safe(cfg, line, []) && Run(cfg, line, []) == (line, [])
  {
  }

  /** Only the flags of the call matter to its pieces. */
  lemma {:induction false} SamePieces(cfg: Config, line: Line, a: Call, b: Call, pieces: seq<seq<Byte>>)
    requires a.special == b.special && a.interactive == b.interactive && PiecesSafe(cfg, line, b, pieces)
    ensures PiecesSafe(cfg, line, a, pieces) && RunPieces(cfg, line, a, pieces) == RunPieces(cfg, line, b, pieces)
    decreases |pieces|
  {
    hide Safe, Run, Codes;
    if pieces != [] {
      assert a.(bytes := pieces[0]) == b.(bytes := pieces[0]);
      SamePieces(cfg, Run(cfg, line, Codes(b.(bytes := pieces[0]), 0)).0, a, b, pieces[1..]);
    }
  }

  // ------------------------------------------------------------------
  // With local editing off

  /** A line left over from editing is sent and taken off the screen. */
  function Flush(utf: bool, buf: seq<Byte>): seq<Out> {
    if buf == [] then [] else [Send(buf)] + Repeat(RUB, Width(utf, buf))
  }

  /** One special key of Telnet may stand for a command. */
  function Command(cfg: Config, b: Byte): Option<Code> {
    if b == CR then (if cfg.telnetNewline then Some(EndOfLine) else None)
    else if !cfg.telnetKeyboard then None
    else if b == 0x7f || b == 0x08 then Some(EraseCharacter)
    else if b == CTRL_C then Some(Interrupt)
    else if b == CTRL_Z then Some(Suspend)
    else None
  }

  function PassedOn(cfg: Config, call: Call): Out {
    if call.special && cfg.protocol == Telnet && |call.bytes| == 1 && Command(cfg, call.bytes[0]).Some? then
      Special(Command(cfg, call.bytes[0]).value)
    else Send(call.bytes)
  }

  function PassThrough(cfg: Config, buf: seq<Byte>, call: Call): seq<Out> {
    Flush(cfg.utf, buf)
    + (if call.bytes == [] then []
       else (if cfg.echo then [Screen(call.bytes)] else []) + [PassedOn(cfg, call)])
  }

  /** Rubbing out from the first column goes back beyond it at once. */
  lemma {:induction false} RubbedText(n: nat)
    ensures n > 0 ==> ScreenText(Repeat(RUB, n)) != [] && ScreenText(Repeat(RUB, n))[0] == 8
  {
    if n > 0 {
      RubbedText(n - 1);
      assert Repeat(RUB, n)[..n - 1] == Repeat(RUB, n - 1);
      if n == 1 {
        assert Repeat(RUB, 0) == [];
      }
    }
  }

  /** The flush does not ask whether the line was echoed: it is right exactly if it was, or took no room. */
  lemma FlushMatchesScreenIff(cfg: Config, buf: seq<Byte>)
    ensures var shown := if cfg.echo then Width(cfg.utf, buf) else 0;
      OnLine(cfg.utf, shown, ScreenText(Flush(cfg.utf, buf))) <==> cfg.echo || Width(cfg.utf, buf) == 0
    ensures cfg.echo ==> Column(cfg.utf, Width(cfg.utf, buf), ScreenText(Flush(cfg.utf, buf))) == 0
  {
    var n := Width(cfg.utf, buf);
    if buf != [] {
      ScreenTextJoins([Send(buf)], Repeat(RUB, n));
      assert [Send(buf)][..0] == [];
      assert ScreenText(Flush(cfg.utf, buf)) == ScreenText(Repeat(RUB, n));
      if cfg.echo || n == 0 {
        RubsLead(cfg.utf, n, n);
      } else {
        RubbedText(n);
      }
    }
  }

  /** Nothing is lost: the back end hears the left-over line and what the call stands for. */
  lemma PassThroughHeard(cfg: Config, buf: seq<Byte>, call: Call)
    ensures Heard(PassThrough(cfg, buf, call))
         == (if buf == [] then [] else [Send(buf)]) + (if call.bytes == [] then [] else [PassedOn(cfg, call)])
  {
    hide Heard, Width;
    var flushed, echo := Flush(cfg.utf, buf), if cfg.echo then [Screen(call.bytes)] else [];
    FlushHeard(cfg.utf, buf);
    ScreenIsNotHeard(echo);
    RestIsHeard([PassedOn(cfg, call)]);
    RestIsHeard([]);
    HeardJoins(echo, [PassedOn(cfg, call)]);
    HeardJoins(flushed, if call.bytes == [] then [] else echo + [PassedOn(cfg, call)]);
  }

  lemma FlushHeard(utf: bool, buf: seq<Byte>)
    ensures Heard(Flush(utf, buf)) == if buf == [] then [] else [Send(buf)]
  {
    hide Heard, Width;
    RestIsHeard([]);
    if buf != [] {
      RestIsHeard([Send(buf)]);
      ScreenIsNotHeard(Repeat(RUB, Width(utf, buf)));
      HeardJoins([Send(buf)], Repeat(RUB, Width(utf, buf)));
    }
  }

  /**
   A single special key in the Telnet protocol: Return is the end of a line if it may be, and with
   Telnet keys on the two delete keys, ^C and ^Z are commands; everything else is sent as it is.
   */
  lemma TelnetKeys(cfg: Config, call: Call)
    ensures var telnet, b := call.special && cfg.protocol == Telnet && |call.bytes| == 1,
                             if |call.bytes| == 1 then call.bytes[0] else 0;
      PassedOn(cfg, call) ==
        if telnet && b == 0x0d && cfg.telnetNewline then Special(EndOfLine)
        else if telnet && (b == 0x08 || b == 0x7f) && cfg.telnetKeyboard then Special(EraseCharacter)
        else if telnet && b == 0x03 && cfg.telnetKeyboard then Special(Interrupt)
        else if telnet && b == 0x1a && cfg.telnetKeyboard then Special(Suspend)
        else Send(call.bytes)
  {
  }

  /** A byte is a special key if the call says so; pasted, a carriage return is the Return key. */
  lemma KeyCodes(call: Call, i: nat)
    requires i < |call.bytes|
    ensures var b := call.bytes[i];
      Codes(call, 0)[i] == if call.special || (!call.interactive && b == 0x0d) then 0x100 + b as int else b as int
  {
    CodeAt(call, 0, i);
  }

  lemma {:induction false} CodeAt(call: Call, from: nat, i: nat)
    requires from <= i < |call.bytes|
    ensures |Codes(call, from)| == |call.bytes| - from && Codes(call, from)[i - from] == KeyCode(call, call.bytes[i])
    decreases i - from
  {
    hide KeyCode;
    if from < i {
      CodeAt(call, from + 1, i);
    }
  }

  // ------------------------------------------------------------------
  // The object

  class Editor {
    const cfg: Config
    var buf: array<Byte>
    var buflen: nat
    var quotenext: bool
    var outs: seq<Out>

    ghost predicate Valid()
      reads this
    {
      buflen <= buf.Length
    }

    ghost function State(): Line
      requires Valid()
      reads this, buf
    {
      Line(buf[..buflen], quotenext)
    }

    constructor (cfg: Config)
      ensures Valid() && State() == Line([], false) && outs == [] && this.cfg == cfg && fresh(buf)
    {
      this.cfg := cfg;
      buf := new Byte[0];
      buflen, quotenext, outs := 0, false, [];
    }

    method Write(o: Out)
      modifies this`outs
      ensures outs == old(outs) + [o]
    {
      outs := outs + [o];
    }

    method Bsb(n: nat)
      modifies this`outs
      ensures outs == old(outs) + Repeat(RUB, n)
    {
      var i := 0;
      while i < n
        invariant i <= n && outs == old(outs) + Repeat(RUB, i)
      {
        Write(RUB);
        i := i + 1;
      }
    }

    /** Takes the last byte off the buffer, and off the screen. */
    method DropByte()
      requires Valid() && buflen > 0
      modifies this`buflen, this`outs
      ensures buflen == old(buflen) - 1
      ensures outs == old(outs) + Rubout(cfg, [buf[buflen]])
    {
      WidthOfOne(cfg.utf, buf[buflen - 1]);
      if cfg.echo {
        Bsb(PLen(cfg.utf, buf[buflen - 1]));
      }
      buflen := buflen - 1;
    }

    method EraseCharacter()
      requires Valid() && (buflen > 0 ==> LastStart(cfg.utf, buf[..buflen]) >= 0)
      modifies this`buflen, this`outs
      ensures Valid()
      ensures var k := if old(buflen) == 0 then 0 else LastStart(cfg.utf, buf[..old(buflen)]);
        buflen == k && outs == old(outs) + Rubout(cfg, buf[k..old(buflen)])
    {
      hide Rubout, LastStart;
      ghost var line := buf[..buflen];
      NothingRubbedOut(cfg);
      assert buf[0..0] == [];
      if buflen > 0 {
        DropByte();
        assert line[buflen..] == [buf[buflen]] && line[..buflen + 1] == line;
        LastStartStep(cfg.utf, line, buflen + 1);
        while !CharStart(cfg.utf, buf[buflen])
          invariant buflen < |line| <= buf.Length && line == buf[..|line|]
          invariant LastStart(cfg.utf, line[..buflen + 1]) == LastStart(cfg.utf, line) >= 0
          invariant outs == old(outs) + Rubout(cfg, line[buflen..])
          decreases buflen
        {
          LastStartStep(cfg.utf, line, buflen + 1);
          DropByte();
          RuboutExtends(cfg, line, buflen);
        }
        LastStartStep(cfg.utf, line, buflen + 1);
      }
    }

    /** Takes the last byte off and tells whether a word began with it. */
    method DropWordByte(ghost line: seq<Byte>) returns (begins: bool)
      requires Valid() && 0 < buflen <= |line| <= buf.Length && line == buf[..|line|]
      modifies this`buflen, this`outs
      ensures buflen == old(buflen) - 1
      ensures outs == old(outs) + Rubout(cfg, [line[buflen]])
      ensures begins == (buflen > 0 && WordBegins(line, buflen))
    {
      DropByte();
      begins := buflen > 0 && IsSpace(buf[buflen - 1]) && !IsSpace(buf[buflen]);
    }

    method EraseWord()
      requires Valid()
      modifies this`buflen, this`outs
      ensures Valid()
      ensures buflen == WordStart(buf[..old(buflen)])
      ensures outs == old(outs) + Rubout(cfg, buf[buflen..old(buflen)])
    {
      hide Rubout, WordStart, IsSpace;
      NothingRubbedOut(cfg);
      ghost var line := buf[..buflen];
      assert line[..buflen] == line && line[buflen..] == [];
      var begins := false;
      while buflen > 0 && !begins
        invariant buflen <= |line| <= buf.Length && line == buf[..|line|]
        invariant WordStart(line) == if begins then buflen else WordStart(line[..buflen])
        invariant outs == old(outs) + Rubout(cfg, line[buflen..])
        decreases buflen
      {
        WordStartStep(line, buflen);
        begins := DropWordByte(line);
        RuboutExtends(cfg, line, buflen);
      }
      WordStartStep(line, 0);
    }

    method EraseAll()
      requires Valid()
      modifies this`buflen, this`outs
      ensures buflen == 0 && outs == old(outs) + Rubout(cfg, buf[..old(buflen)])
    {
      ghost var line := buf[..buflen];
      while buflen > 0
        invariant buflen <= |line| <= buf.Length && line == buf[..|line|]
        invariant outs == old(outs) + Rubout(cfg, line[buflen..])
      {
        DropByte();
        RuboutExtends(cfg, line, buflen);
      }
    }

    /** Puts a byte at the end of the line, in a larger buffer if need be. */
    method Insert(c: nat)
      requires Valid()
      modifies this, buf
      ensures Valid() && (buf == old(buf) || fresh(buf))
      ensures (State(), outs) == After(old(outs), Inserted(cfg, old(State()), c))
    {
      if buflen >= buf.Length {
        var larger := new Byte[buflen + 256];
        forall i | 0 <= i < buflen {
          larger[i] := buf[i];
        }
        buf := larger;
      }
      assert buf[..buflen] == old(buf[..buflen]);
      buf[buflen] := c % 256;
      buflen := buflen + 1;
      if cfg.echo {
        Write(Screen(PWrite(cfg.utf, c % 256)));
      }
      quotenext := false;
      assert buf[..buflen] == old(buf[..buflen]) + [c % 256];
    }

    method Redraw()
      requires Valid()
      modifies this`outs
      ensures outs == old(outs)
        + if cfg.echo then [Screen(['^' as int, 'R' as int, CR, 10])] + Shown(cfg.utf, buf[..buflen]) else []
    {
      if cfg.echo {
        Write(Screen(['^' as int, 'R' as int, CR, 10]));
        ghost var start := outs;
        var i := 0;
        while i < buflen
          invariant i <= buflen && outs == start + Shown(cfg.utf, buf[..i])
        {
          Write(Screen(PWrite(cfg.utf, buf[i])));
          i := i + 1;
          assert buf[..i][..i - 1] == buf[..i - 1];
        }
      }
    }

    /** Sends the line and its end, and begins a new one. */
    method EndLine()
      requires Valid() && !quotenext
      modifies this`buflen, this`outs
      ensures buflen == 0 && outs == old(outs) + LineEnd(cfg, buf[..old(buflen)])
    {
      if buflen > 0 {
        Write(Send(buf[..buflen]));
      }
      if cfg.protocol == Raw {
        Write(Send([CR, 10]));
      } else if cfg.protocol == Telnet && cfg.telnetNewline {
        Write(Special(EndOfLine));
      } else {
        Write(Send([CR]));
      }
      if cfg.echo {
        Write(Screen([CR, 10]));
      }
      buflen := 0;
    }

    method SignalKey(c: nat)
      modifies this`outs
      ensures outs == old(outs) + Signal(c)
    {
      if c == CTRL_C {
        Write(Special(Interrupt));
      }
      if c == CTRL_Z {
        Write(Special(Suspend));
      }
      if c == CTRL_BACKSLASH {
        Write(Special(Abort));
      }
    }

    method Kill(c: nat)
      requires Valid() && !quotenext
      modifies this, buf
      ensures Valid() && (buf == old(buf) || fresh(buf))
      ensures (State(), outs) == After(old(outs), Killed(cfg, old(State()), c))
    {
      hide Rubout, Inserted, Signal;
      assert buf[..buflen][0..] == buf[..buflen];
      EraseAll();
      assert buf[..buflen] == [];
      Write(Special(EraseLine));
      if !cfg.telnetKeyboard {
        ghost var cut := CutTo(cfg, old(State()), 0);
        assert State() == cut.0;
        Insert(c);
        ConcatAssoc(old(outs), cut.1, [Special(EraseLine)]);
        ConcatAssoc(old(outs), cut.1 + [Special(EraseLine)], Inserted(cfg, cut.0, c).1);
        return;
      }
      SignalKey(c);
      ghost var cut := CutTo(cfg, old(State()), 0);
      ConcatAssoc(old(outs), cut.1, [Special(EraseLine)]);
      ConcatAssoc(old(outs), cut.1 + [Special(EraseLine)], Signal(c));
    }

    /** The line without the last byte, then the end of the line. */
    method EndRawLine()
      requires Valid() && !quotenext && EndsRawLine(cfg, State(), CTRL_J)
      modifies this`buflen, this`outs
      ensures Valid() && (State(), outs) == After(old(outs), Step(cfg, old(State()), CTRL_J))
    {
      hide LineEnd, Rubout;
      ghost var line := old(State());
      DropByte();
      assert buf[..buflen] == line.buf[..|line.buf| - 1];
      EndLine();
      ConcatAssoc(old(outs), Rubout(cfg, [CR]), LineEnd(cfg, line.buf[..|line.buf| - 1]));
      assert buf[..buflen] == [];
    }

    method SendUnfinished()
      requires Valid() && !quotenext
      modifies this`buflen, this`outs
      ensures Valid() && (State(), outs) == After(old(outs), Step(cfg, old(State()), CTRL_D))
    {
      if buflen == 0 {
        Write(Special(EndOfFile));
      } else {
        Write(Send(buf[..buflen]));
        buflen := 0;
      }
      assert buf[..buflen] == [];
    }

    /** The keys that cut the line back. */
    method Cut(c: nat)
      requires Valid() && !quotenext && StaysInLine(cfg, State(), c) && (c == BS || c == DEL || c == CTRL_W)
      modifies this`buflen, this`outs
      ensures Valid() && (State(), outs) == After(old(outs), Step(cfg, old(State()), c))
    {
      hide Rubout, LastStart, WordStart;
      ghost var line := buf[..buflen];
      if c == CTRL_W {
        EraseWord();
      } else {
        EraseCharacter();
      }
      assert line[..buflen] == buf[..buflen] && line[buflen..] == buf[buflen..|line|];
    }

    /** One key. */
    method Key(c: nat)
      requires Valid() && StaysInLine(cfg, State(), c)
      modifies this, buf
      ensures Valid() && (buf == old(buf) || fresh(buf))
      ensures (State(), outs) == After(old(outs), Step(cfg, old(State()), c))
    {
      hide Rubout, LineEnd, Killed, Inserted, LastStart, WordStart, Shown;
      if quotenext {
        Insert(c);
      } else if c == BS || c == DEL || c == CTRL_W {
        Cut(c);
      } else if Kills(c) {
        Kill(c);
      } else if c == CTRL_R {
        Redraw();
      } else if c == CTRL_V {
        quotenext := true;
      } else if c == CTRL_D {
        SendUnfinished();
      } else if c == CTRL_J && cfg.protocol == Raw && buflen > 0 && buf[buflen - 1] == CR {
        EndRawLine();
      } else if c == RETURN {
        EndLine();
        assert buf[..buflen] == [];
      } else {
        Insert(c);
      }
    }

    /** One call with local editing on: the keys one after another. */
    method SendEditing(call: Call)
      requires Valid() && Safe(cfg, State(), Codes(call, 0))
      modifies this, buf
      ensures Valid() && (buf == old(buf) || fresh(buf))
      ensures (State(), outs) == After(old(outs), Run(cfg, old(State()), Codes(call, 0)))
    {
      hide Step;
      var i := 0;
      ghost var codes := Codes(call, 0);
      ghost var first := State();
      while i < |call.bytes|
        invariant i <= |call.bytes| && Valid() && (buf == old(buf) || fresh(buf))
        invariant Safe(cfg, State(), Codes(call, i))
        invariant Run(cfg, first, codes).0 == Run(cfg, State(), Codes(call, i)).0
        invariant old(outs) + Run(cfg, first, codes).1 == outs + Run(cfg, State(), Codes(call, i)).1
      {
        ghost var line, was, left := State(), outs, Codes(call, i);
        var c := KeyCode(call, call.bytes[i]);
        assert left == [c] + Codes(call, i + 1);
        assert left[0] == c && left[1..] == Codes(call, i + 1);
        RunUnfolds(cfg, line, left);
        Key(c);
        ConcatAssoc(was, Step(cfg, line, c).1, Run(cfg, State(), Codes(call, i + 1)).1);
        i := i + 1;
      }
      assert Codes(call, i) == [] && Run(cfg, State(), []) == (State(), []);
      assert outs + Run(cfg, State(), []).1 == outs;
    }

    /** One call with local editing off. */
    method SendThrough(call: Call)
      requires Valid()
      modifies this`buflen, this`outs
      ensures buflen == 0 && outs == old(outs) + PassThrough(cfg, buf[..old(buflen)], call)
    {
      hide PassedOn;
      ghost var line := buf[..buflen];
      if buflen != 0 {
        Write(Send(buf[..buflen]));
        FlushLine();
      }
      assert outs == old(outs) + Flush(cfg.utf, line);
      if |call.bytes| > 0 {
        if cfg.echo {
          Write(Screen(call.bytes));
        }
        PassOn(call);
      }
    }

    method FlushLine()
      requires Valid()
      modifies this`buflen, this`outs
      ensures buflen == 0 && outs == old(outs) + Repeat(RUB, Width(cfg.utf, buf[..old(buflen)]))
    {
      ghost var line := buf[..buflen];
      while buflen > 0
        invariant buflen <= |line| <= buf.Length && line == buf[..|line|]
        invariant outs == old(outs) + Repeat(RUB, Width(cfg.utf, line[buflen..]))
      {
        hide Repeat, Width, PLen;
        WidthOfOne(cfg.utf, buf[buflen - 1]);
        Bsb(PLen(cfg.utf, buf[buflen - 1]));
        buflen := buflen - 1;
        RubsExtend(cfg.utf, line, buflen);
      }
      assert line[0..] == line;
    }

    method PassOn(call: Call)
      requires call.bytes != []
      modifies this`outs
      ensures outs == old(outs) + [PassedOn(cfg, call)]
    {
      if call.special && cfg.protocol == Telnet && |call.bytes| == 1 {
        var b := call.bytes[0];
        assert call.bytes == [b];
        if b == CR {
          if cfg.telnetNewline {
            Write(Special(EndOfLine));
          } else {
            Write(Send([CR]));
          }
        } else if (b == 0x7f || b == 0x08) && cfg.telnetKeyboard {
          Write(Special(Code.EraseCharacter));
        } else if b == CTRL_C && cfg.telnetKeyboard {
          Write(Special(Interrupt));
        } else if b == CTRL_Z && cfg.telnetKeyboard {
          Write(Special(Suspend));
        } else {
          Write(Send(call.bytes));
        }
      } else {
        Write(Send(call.bytes));
      }
    }
  }

  /** A step's result, after what was put out before. */
  function After(outs: seq<Out>, r: (Line, seq<Out>)): (a: (Line, seq<Out>))
    ensures r.1 == [] ==> a.1 == outs
  {
    (r.0, outs + r.1)
  }

  lemma NothingRubbedOut(cfg: Config)
    ensures Rubout(cfg, []) == []
  {
  }

  lemma LastStartStep(utf: bool, line: seq<Byte>, k: nat)
    requires k <= |line|
    ensures LastStart(utf, line[..k])
         == if k == 0 then -1 else if CharStart(utf, line[k - 1]) then k - 1 else LastStart(utf, line[..k - 1])
  {
    if k > 0 {
      assert line[..k][..k - 1] == line[..k - 1];
    }
  }

  lemma WordStartStep(line: seq<Byte>, k: nat)
    requires k <= |line|
    ensures WordStart(line[..k])
         == if k == 0 then 0 else if WordBegins(line, k - 1) then k - 1 else WordStart(line[..k - 1])
  {
    if k > 0 {
      assert line[..k][..k - 1] == line[..k - 1];
    }
  }

  lemma RunUnfolds(cfg: Config, line: Line, codes: seq<nat>)
    requires codes != [] && Safe(cfg, line, codes)
    ensures StaysInLine(cfg, line, codes[0]) && Safe(cfg, Step(cfg, line, codes[0]).0, codes[1..])
    ensures Run(cfg, line, codes).0 == Run(cfg, Step(cfg, line, codes[0]).0, codes[1..]).0
    ensures Run(cfg, line, codes).1
         == Step(cfg, line, codes[0]).1 + Run(cfg, Step(cfg, line, codes[0]).0, codes[1..]).1
  {
    hide Step;
  }

  lemma {:induction false} RepeatJoins(x: Out, m: nat, n: nat)
    ensures Repeat(x, m) + Repeat(x, n) == Repeat(x, m + n)
  {
    if n > 0 {
      RepeatJoins(x, m, n - 1);
    }
  }

  lemma RubsExtend(utf: bool, line: seq<Byte>, k: nat)
    requires k < |line|
    ensures Repeat(RUB, Width(utf, line[k + 1..])) + Repeat(RUB, Width(utf, [line[k]]))
         == Repeat(RUB, Width(utf, line[k..]))
  {
    assert line[k..] == [line[k]] + line[k + 1..];
    WidthJoins(utf, [line[k]], line[k + 1..]);
    RepeatJoins(RUB, Width(utf, line[k + 1..]), Width(utf, [line[k]]));
  }

  lemma RuboutExtends(cfg: Config, line: seq<Byte>, k: nat)
    requires k < |line|
    ensures Rubout(cfg, line[k + 1..]) + Rubout(cfg, [line[k]]) == Rubout(cfg, line[k..])
  {
    RubsExtend(cfg.utf, line, k);
  }
}
