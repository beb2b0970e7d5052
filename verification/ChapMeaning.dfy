/** CHAP streams. */
module ChapMeaning {
  import opened Bytes
  import opened Chap

  // The stream from the proxy read as messages and attributes, and what each of them does to the
  // exchange.  The parser is proved to do just that, on every stream.

  /** The head of a message: version and number of attributes; or an attribute with its data. */
  datatype Token = Message(version: Byte, count: Byte) | Attribute(kind: Byte, data: seq<Byte>)

  const STATUS: Byte := 0x00
  const CHALLENGE: Byte := 0x03
  const ALGORITHM: Byte := 0x11
  const HMAC_MD5: Byte := 0x85

  predicate ValidToken(t: Token) {
    t.Attribute? ==> |t.data| < 256
  }

  function TokenText(t: Token): (s: seq<Byte>)
    requires ValidToken(t)
    ensures |s| >= 2
  {
    match t
    case Message(version, count) => [version, count]
    case Attribute(kind, data) => [kind, |data|] + data
  }

  /** A status of zero, or with no data at all. */
  predicate Succeeds(t: Token) {
    t.Attribute? && t.kind == STATUS && (t.data == [] || t.data[0] == 0)
  }

  /** Why a token ends the exchange. */
  function Fault(t: Token): Option<Error> {
    match t
    case Message(version, count) =>
      if version != 1 then Some(WrongVersion) else if count == 0 then Some(WontNegotiate) else None
    case Attribute(kind, data) =>
      if kind == STATUS && data != [] && data[0] != 0 then Some(Refused)
      else if kind == ALGORITHM && (data == [] || data[0] != HMAC_MD5) then Some(WrongAlgorithm)
      else None
  }

  /** A challenge is answered: version 1, one attribute, a response of 16 bytes, and the hash of its data. */
  function Answers(mac: seq<Byte> -> seq<Byte>, tokens: seq<Token>): seq<seq<Byte>> {
    if tokens == [] then []
    else
      var t := tokens[0];
      (if t.Attribute? && t.kind == CHALLENGE then [[1, 1, 4, 16] + mac(t.data)] else []) + Answers(mac, tokens[1..])
  }

  // ------------------------------------------------------------------
  // Streams

  /** How many attributes of the current message are to come, and whether it has authenticated. */
  datatype Place = Place(left: nat, authenticated: bool)

  function Next(pl: Place, t: Token): Place
    requires t.Message? <==> pl.left == 0
  {
    match t
    case Message(_, count) => Place(count, pl.authenticated)
    case Attribute(_, _) => Place(pl.left - 1, pl.authenticated || Succeeds(t))
  }

  /** The exchange is over at the end of the message that has authenticated. */
  predicate Over(pl: Place) {
    pl.left == 0 && pl.authenticated
  }

  /** Each token is what is due: a message after the last attribute of the one before, as long as it is not over. */
  predicate Due(pl: Place, tokens: seq<Token>)
    decreases |tokens|
  {
    tokens == [] ||
    (!Over(pl) && ValidToken(tokens[0]) && (tokens[0].Message? <==> pl.left == 0)
     && Due(Next(pl, tokens[0]), tokens[1..]))
  }

  function After(pl: Place, tokens: seq<Token>): Place
    requires Due(pl, tokens)
    decreases |tokens|
  {
    if tokens == [] then pl else After(Next(pl, tokens[0]), tokens[1..])
  }

  function Text(pl: Place, tokens: seq<Token>): seq<Byte>
    requires Due(pl, tokens)
    decreases |tokens|
  {
    if tokens == [] then [] else TokenText(tokens[0]) + Text(Next(pl, tokens[0]), tokens[1..])
  }

  predicate Faultless(tokens: seq<Token>) {
    forall i :: 0 <= i < |tokens| ==> Fault(tokens[i]) == None
  }

  /** Too little for another token. */
  predicate Incomplete(pl: Place, tail: seq<Byte>) {
    |tail| < 2 || (pl.left > 0 && |tail| - 2 < tail[1])
  }

  /** What a run of the parser comes to, told by the tokens of its input. */
  ghost predicate Tells(mac: seq<Byte> -> seq<Byte>, pl: Place, input: seq<Byte>, r: Result, tokens: seq<Token>,
                        tail: seq<Byte>) {
    && Due(pl, tokens) && input == Text(pl, tokens) + tail
    && r.replies == Answers(mac, tokens)
    && var last := |tokens| - 1;
       match r.outcome
       case Failed(error) =>
         tokens != [] && Faultless(tokens[..last]) && Fault(tokens[last]) == Some(error) && r.unread == tail
       case Done =>
         Faultless(tokens) && Over(After(pl, tokens)) && r.unread == tail
       case Waiting =>
         && Faultless(tokens) && !Over(After(pl, tokens)) && Incomplete(After(pl, tokens), tail)
         && r.unread == (if |tail| < 2 then tail else tail[2..])
         && (r.st.phase == AUTHENTICATED <==> After(pl, tokens).authenticated)
  }

  // ------------------------------------------------------------------
  // The parser between two tokens

  function PlaceOf(st: State): Place {
    Place(if st.processed <= st.num then st.num - st.processed else 0, st.phase == AUTHENTICATED)
  }

  ghost predicate Between(st: State) {
    Sound(st) && st.attr == -1
  }

  lemma BetweenOver(st: State)
    requires Between(st)
    ensures Finished(st) <==> Over(PlaceOf(st))
  {
  }

  /** A message head is one step of the parser. */
  lemma MessageStep(mac: seq<Byte> -> seq<Byte>, st: State, t: Token, rest: seq<Byte>)
    requires Between(st) && !Finished(st) && t.Message? && PlaceOf(st).left == 0
    ensures match Fault(t)
      case Some(error) => NextStep(mac, st, TokenText(t) + rest) == Fail(error, 2)
      case None =>
        var step := NextStep(mac, st, TokenText(t) + rest);
        step.Go? && step.used == 2 && step.replies == [] && Between(step.st) && PlaceOf(step.st) == Next(PlaceOf(st), t)
  {
  }

  /** An attribute is two: its head, ... */
  lemma HeadStep(mac: seq<Byte> -> seq<Byte>, st: State, t: Token, rest: seq<Byte>)
    requires Between(st) && !Finished(st) && t.Attribute? && ValidToken(t) && PlaceOf(st).left > 0
    ensures NextStep(mac, st, TokenText(t) + rest) == Go(st.(attr := t.kind, datalen := |t.data|), 2, [])
    ensures Sound(st.(attr := t.kind, datalen := |t.data|))
  {
  }

  /** ... and its data. */
  lemma DataStep(mac: seq<Byte> -> seq<Byte>, st: State, t: Token, rest: seq<Byte>)
    requires Between(st) && !Finished(st) && t.Attribute? && ValidToken(t) && PlaceOf(st).left > 0
    ensures var step := NextStep(mac, st.(attr := t.kind, datalen := |t.data|), t.data + rest);
      match Fault(t)
      case Some(error) => step == Fail(error, |t.data|)
      case None =>
        && step.Go? && step.used == |t.data| && step.replies == Answers(mac, [t])
        && Between(step.st) && PlaceOf(step.st) == Next(PlaceOf(st), t)
  {
    assert (t.data + rest)[..|t.data|] == t.data;
    assert Answers(mac, [t]) == if t.kind == CHALLENGE then [[1, 1, 4, 16] + mac(t.data)] else [] by {
      assert [t][1..] == [];
    }
  }

  /** A token in front of the input: the exchange fails there, or goes on behind it. */
  ghost predicate TokenRuns(mac: seq<Byte> -> seq<Byte>, st: State, t: Token, rest: seq<Byte>, next: State)
    requires Between(st) && !Finished(st) && ValidToken(t) && (t.Message? <==> PlaceOf(st).left == 0)
  {
    match Fault(t)
    case Some(error) =>
      var r := Run(mac, st, TokenText(t) + rest);
      r.outcome == Failed(error) && r.replies == Answers(mac, [t]) && r.unread == rest
    case None =>
      && Between(next) && PlaceOf(next) == Next(PlaceOf(st), t)
      && Run(mac, st, TokenText(t) + rest) == Replying(Answers(mac, [t]), Run(mac, next, rest))
  }

  lemma MessageRuns(mac: seq<Byte> -> seq<Byte>, st: State, t: Token, rest: seq<Byte>) returns (next: State)
    requires Between(st) && !Finished(st) && t.Message? && PlaceOf(st).left == 0
    ensures match Fault(t)
      case Some(error) => Run(mac, st, TokenText(t) + rest) == Result(st, rest, [], Failed(error))
      case None => Between(next) && PlaceOf(next) == Next(PlaceOf(st), t)
                   && Run(mac, st, TokenText(t) + rest) == Replying([], Run(mac, next, rest))
  {
    hide NextStep, Sound, Run, Fault;
    next := st;
    var input := TokenText(t) + rest;
    MessageStep(mac, st, t, rest);
    RunStep(mac, st, input);
    assert input[2..] == rest;
    if Fault(t) == None {
      next := NextStep(mac, st, input).st;
    }
  }

  lemma AttributeRuns(mac: seq<Byte> -> seq<Byte>, st: State, t: Token, rest: seq<Byte>) returns (next: State)
    requires Between(st) && !Finished(st) && t.Attribute? && ValidToken(t) && PlaceOf(st).left > 0
    ensures match Fault(t)
      case Some(error) =>
        var r := Run(mac, st, TokenText(t) + rest);
        r.outcome == Failed(error) && r.replies == [] && r.unread == rest
      case None => Between(next) && PlaceOf(next) == Next(PlaceOf(st), t)
                   && Run(mac, st, TokenText(t) + rest) == Replying(Answers(mac, [t]), Run(mac, next, rest))
  {
    hide NextStep, Sound, Run, Fault, Answers;
    next := st;
    var input, body := TokenText(t) + rest, t.data + rest;
    HeadStep(mac, st, t, rest);
    RunStep(mac, st, input);
    assert input[2..] == body;
    var reading := st.(attr := t.kind, datalen := |t.data|);
    assert Run(mac, st, input) == Run(mac, reading, body);
    DataStep(mac, st, t, rest);
    RunStep(mac, reading, body);
    assert body[|t.data|..] == rest;
    if Fault(t) == None {
      next := NextStep(mac, reading, body).st;
    }
  }

  lemma TokenStep(mac: seq<Byte> -> seq<Byte>, st: State, t: Token, rest: seq<Byte>) returns (next: State)
    requires Between(st) && !Finished(st) && ValidToken(t) && (t.Message? <==> PlaceOf(st).left == 0)
    ensures TokenRuns(mac, st, t, rest, next)
  {
    hide Run, Between, Finished;
    assert [t][1..] == [];
    assert Fault(t).Some? || t.Message? ==> Answers(mac, [t]) == [];
    if t.Message? {
      next := MessageRuns(mac, st, t, rest);
    } else {
      next := AttributeRuns(mac, st, t, rest);
    }
  }

  /** One step of the parser and the rest of the run. */
  lemma RunStep(mac: seq<Byte> -> seq<Byte>, st: State, input: seq<Byte>)
    requires Sound(st) && !Finished(st)
    ensures var step := NextStep(mac, st, input);
      && (step.Need? ==> Run(mac, st, input) == Result(st, input, [], Waiting))
      && (step.Fail? ==> step.used <= |input|
                         && Run(mac, st, input) == Result(st, input[step.used..], [], Failed(step.error)))
      && (step.Go? ==> Sound(step.st) && step.used <= |input|
                       && Run(mac, st, input) == Replying(step.replies, Run(mac, step.st, input[step.used..])))
  {
    hide NextStep, Sound;
    StepIsSound(mac, st, input);
  }

  // ------------------------------------------------------------------
  // Whole runs

  lemma FirstToken(pl: Place, input: seq<Byte>) returns (t: Token, rest: seq<Byte>)
    requires !Incomplete(pl, input)
    ensures ValidToken(t) && (t.Message? <==> pl.left == 0) && input == TokenText(t) + rest
  {
    if pl.left == 0 {
      t, rest := Message(input[0], input[1]), input[2..];
    } else {
      var n := input[1];
      t, rest := Attribute(input[0], input[2..][..n]), input[2..][n..];
      assert TokenText(t) == input[..2] + input[2..][..n];
    }
    assert input == TokenText(t) + rest;
  }

  lemma IncompleteRun(mac: seq<Byte> -> seq<Byte>, st: State, input: seq<Byte>)
    requires Between(st) && !Finished(st) && Incomplete(PlaceOf(st), input)
    ensures var r := Run(mac, st, input);
      && r.outcome == Waiting && r.replies == [] && r.st.phase == st.phase
      && r.unread == if |input| < 2 then input else input[2..]
  {
    hide Run, Sound;
    RunStep(mac, st, input);
    if |input| >= 2 {
      var reading := st.(attr := input[0], datalen := input[1]);
      assert NextStep(mac, st, input) == Go(reading, 2, []);
      RunStep(mac, reading, input[2..]);
    }
  }

  lemma TellsNothing(mac: seq<Byte> -> seq<Byte>, pl: Place, input: seq<Byte>, r: Result)
    requires r.replies == []
    requires if Over(pl) then r.outcome == Done && r.unread == input
             else && r.outcome == Waiting && Incomplete(pl, input)
                  && r.unread == (if |input| < 2 then input else input[2..])
                  && (r.st.phase == AUTHENTICATED <==> pl.authenticated)
    ensures Tells(mac, pl, input, r, [], input)
  {
    assert [] + input == input;
  }

  lemma TellsFault(mac: seq<Byte> -> seq<Byte>, pl: Place, t: Token, rest: seq<Byte>, r: Result, error: Error)
    requires !Over(pl) && ValidToken(t) && (t.Message? <==> pl.left == 0) && Fault(t) == Some(error)
    requires r.outcome == Failed(error) && r.replies == Answers(mac, [t]) && r.unread == rest
    ensures Tells(mac, pl, TokenText(t) + rest, r, [t], rest)
  {
    assert [t][1..] == [] && [t][..0] == [];
    assert Text(pl, [t]) == TokenText(t) + [] == TokenText(t);
  }

  lemma TellsMore(mac: seq<Byte> -> seq<Byte>, pl: Place, t: Token, rest: seq<Byte>, r: Result, tokens: seq<Token>,
                  tail: seq<Byte>)
    requires !Over(pl) && ValidToken(t) && (t.Message? <==> pl.left == 0) && Fault(t) == None
    requires Tells(mac, Next(pl, t), rest, r, tokens, tail)
    ensures Tells(mac, pl, TokenText(t) + rest, Replying(Answers(mac, [t]), r), [t] + tokens, tail)
  {
    hide TokenText, Fault, Incomplete, Over;
    var all := [t] + tokens;
    assert all[0] == t && all[1..] == tokens && [t][1..] == [];
    assert Due(pl, all);
    assert Text(pl, all) == TokenText(t) + Text(Next(pl, t), tokens);
    ConcatAssoc(TokenText(t), Text(Next(pl, t), tokens), tail);
    AnswersFirst(mac, t, tokens);
    if tokens != [] {
      assert all[..|all| - 1] == [t] + tokens[..|tokens| - 1];
    }
  }

  lemma AnswersFirst(mac: seq<Byte> -> seq<Byte>, t: Token, tokens: seq<Token>)
    ensures Answers(mac, [t] + tokens) == Answers(mac, [t]) + Answers(mac, tokens)
  {
    assert ([t] + tokens)[1..] == tokens && [t][1..] == [];
  }

  /** Every run of the parser, from anywhere between two tokens, does what the tokens of its input say. */
  lemma {:induction false} RunTells(mac: seq<Byte> -> seq<Byte>, st: State, input: seq<Byte>)
    returns (tokens: seq<Token>, tail: seq<Byte>)
    requires Between(st)
    ensures Tells(mac, PlaceOf(st), input, Run(mac, st, input), tokens, tail)
    decreases |input|
  {
    hide Tells, TokenText, Sound, NextStep, Fault, Incomplete;
    var pl := PlaceOf(st);
    BetweenOver(st);
    if Finished(st) || Incomplete(pl, input) {
      tokens, tail := [], input;
      if !Finished(st) {
        IncompleteRun(mac, st, input);
      }
      TellsNothing(mac, pl, input, Run(mac, st, input));
    } else {
      var t, rest := FirstToken(pl, input);
      var next := TokenStep(mac, st, t, rest);
      if Fault(t).Some? {
        tokens, tail := [t], rest;
        TellsFault(mac, pl, t, rest, Run(mac, st, input), Fault(t).value);
      } else {
        var ts;
        ts, tail := RunTells(mac, next, rest);
        tokens := [t] + ts;
        TellsMore(mac, pl, t, rest, Run(mac, next, rest), ts, tail);
      }
    }
  }

  /** Tokens without fault in front of the input: they are answered, and the run goes on behind them. */
  lemma {:induction false} RunOfTokens(mac: seq<Byte> -> seq<Byte>, st: State, tokens: seq<Token>, tail: seq<Byte>)
    returns (next: State)
    requires Between(st) && Due(PlaceOf(st), tokens) && Faultless(tokens)
    ensures Between(next) && PlaceOf(next) == After(PlaceOf(st), tokens)
    ensures Run(mac, st, Text(PlaceOf(st), tokens) + tail) == Replying(Answers(mac, tokens), Run(mac, next, tail))
    decreases |tokens|
  {
    hide TokenText, Sound, NextStep, Fault, Run, ValidToken;
    if tokens == [] {
      next := st;
      assert [] + tail == tail;
      assert [] + Run(mac, st, tail).replies == Run(mac, st, tail).replies;
    } else {
      BetweenOver(st);
      var t, more := tokens[0], tokens[1..];
      var pl := Next(PlaceOf(st), t);
      ConcatAssoc(TokenText(t), Text(pl, more), tail);
      var second := TokenStep(mac, st, t, Text(pl, more) + tail);
      next := RunOfTokens(mac, second, more, tail);
      assert [t] + more == tokens;
      AnswersFirst(mac, t, more);
      ConcatAssoc(Answers(mac, [t]), Answers(mac, more), Run(mac, next, tail).replies);
    }
  }

  /** A faulty token ends the run with its error, whatever follows; what came before it is answered. */
  lemma FaultEndsRun(mac: seq<Byte> -> seq<Byte>, tokens: seq<Token>, t: Token, tail: seq<Byte>)
    requires Due(Place(0, false), tokens) && Faultless(tokens) && ValidToken(t) && Fault(t).Some?
    requires var pl := After(Place(0, false), tokens); !Over(pl) && (t.Message? <==> pl.left == 0)
    ensures var r := Run(mac, START, Text(Place(0, false), tokens) + (TokenText(t) + tail));
      && r.outcome == Failed(Fault(t).value) && r.unread == tail
      && r.replies == Answers(mac, tokens) + Answers(mac, [t])
  {
    hide TokenText, Sound, NextStep, Fault, Run, Due, After, Text, Answers;
    StartIsBetween();
    var next := RunOfTokens(mac, START, tokens, TokenText(t) + tail);
    BetweenOver(next);
    var _ := TokenStep(mac, next, t, tail);
  }

  lemma StartIsBetween()
    ensures Between(START) && PlaceOf(START) == Place(0, false)
  {
  }

  /** When the message that has authenticated is complete, the run is done and leaves what follows. */
  lemma SuccessEndsRun(mac: seq<Byte> -> seq<Byte>, tokens: seq<Token>, tail: seq<Byte>)
    requires Due(Place(0, false), tokens) && Faultless(tokens) && Over(After(Place(0, false), tokens))
    ensures var r := Run(mac, START, Text(Place(0, false), tokens) + tail);
      r.outcome == Done && r.unread == tail && r.replies == Answers(mac, tokens)
  {
    hide TokenText, Sound, NextStep, Fault, Due, After, Text, Answers;
    StartIsBetween();
    var next := RunOfTokens(mac, START, tokens, tail);
    BetweenOver(next);
    assert Answers(mac, tokens) + [] == Answers(mac, tokens);
  }

  // ------------------------------------------------------------------
  // No connection without success

  /** The parser has accepted the login, at the end of its message or in the middle. */
  ghost predicate Accepted(r: Result) {
    r.outcome == Done || (r.outcome == Waiting && r.st.phase == AUTHENTICATED)
  }

  lemma {:induction false} AuthenticatedBySuccess(pl: Place, tokens: seq<Token>)
    requires Due(pl, tokens) && After(pl, tokens).authenticated && !pl.authenticated
    ensures exists i :: 0 <= i < |tokens| && Succeeds(tokens[i])
    decreases |tokens|
  {
    if tokens != [] && !Succeeds(tokens[0]) {
      AuthenticatedBySuccess(Next(pl, tokens[0]), tokens[1..]);
      var j :| 0 <= j < |tokens[1..]| && Succeeds(tokens[1..][j]);
      assert tokens[j + 1] == tokens[1..][j];
    }
  }

  /** The input consists of tokens without fault, one of which is a success, and a rest. */
  ghost predicate HoldsSuccess(input: seq<Byte>) {
    exists tokens: seq<Token>, tail: seq<Byte> ::
      && Due(Place(0, false), tokens) && input == Text(Place(0, false), tokens) + tail
      && Faultless(tokens) && exists i :: 0 <= i < |tokens| && Succeeds(tokens[i])
  }

  lemma AcceptedHoldsSuccess(mac: seq<Byte> -> seq<Byte>, input: seq<Byte>)
    requires Accepted(Run(mac, START, input))
    ensures HoldsSuccess(input)
  {
    hide Run, Sound, Text, Due, After, Succeeds, Faultless, Incomplete;
    StartIsBetween();
    var tokens, tail := RunTells(mac, START, input);
    AuthenticatedBySuccess(Place(0, false), tokens);
  }

  lemma {:induction false} DriverAccepts(mac: seq<Byte> -> seq<Byte>, past: seq<Byte>, chunks: seq<seq<Byte>>)
    returns (n: nat)
    requires Run(mac, START, past).outcome == Waiting && Sound(Run(mac, START, past).st)
    ensures var r := Run(mac, START, past);
      Drive(mac, r.st, r.unread, chunks).Connects? ==>
        n <= |past + Join(chunks)| && Accepted(Run(mac, START, (past + Join(chunks))[..n]))
    decreases |chunks|
  {
    hide Run, Sound, Join;
    StartIsBetween();
    var r := Run(mac, START, past);
    n := |past|;
    if chunks != [] {
      var whole := past + Join(chunks);
      JoinHead(chunks);
      if r.st.phase == AUTHENTICATED {
        assert whole[..n] == past;
      } else {
        var now := past + chunks[0];
        RunSplits(mac, START, past, chunks[0]);
        RunIsSound(mac, START, now);
        RunIsSound(mac, r.st, r.unread + chunks[0]);
        ConcatAssoc(past, chunks[0], Join(chunks[1..]));
        if Run(mac, START, now).outcome == Waiting {
          n := DriverAccepts(mac, now, chunks[1..]);
        } else {
          n := |now|;
          assert whole[..n] == now;
        }
      }
    }
  }

  /** However the stream is cut: the driver connects only if some part of it holds a success and nothing faulty. */
  lemma ConnectsOnlyOnSuccess(mac: seq<Byte> -> seq<Byte>, chunks: seq<seq<Byte>>)
    requires Drive(mac, START, [], chunks).Connects?
    ensures exists n: nat :: n <= |Join(chunks)| && HoldsSuccess(Join(chunks)[..n])
  {
    hide Run, Sound, Join, Drive, HoldsSuccess;
    StartIsBetween();
    RunOfNothing(mac);
    var n := DriverAccepts(mac, [], chunks);
    assert [] + Join(chunks) == Join(chunks);
    AcceptedHoldsSuccess(mac, Join(chunks)[..n]);
  }
}
