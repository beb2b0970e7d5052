/** The CHAP exchange. */
module Chap {
  import opened Bytes

  // The CHAP exchange with a SOCKS 5 proxy, parsed as the bytes arrive, and the driver that calls
  // the parser at each arrival.

  datatype Error = WrongVersion | WontNegotiate | Refused | WrongAlgorithm

  // States of the proxy negotiation.
  const CHAP: nat := 8
  const AUTHENTICATED: nat := 2

  /** How far a message is parsed: `attr` is the attribute whose data are awaited, or -1. */
  datatype State = State(num: nat, processed: nat, attr: int, datalen: nat, phase: nat)

  datatype Outcome = Waiting | Done | Failed(error: Error)

  datatype Result = Result(st: State, unread: seq<Byte>, replies: seq<seq<Byte>>, outcome: Outcome)

  /** The start of the exchange. */
  const START: State := State(0, 0, -1, 0, CHAP)

  ghost predicate Sound(st: State) {
    && (st.num == 0 ==> st.processed == 0 && st.attr == -1)
    && st.processed <= st.num
    && (st.attr == -1 || (0 <= st.attr < 256 && st.processed < st.num && st.datalen < 256))
    && (st.phase == CHAP || st.phase == AUTHENTICATED)
    && (st.phase == AUTHENTICATED ==> st.num > 0)
    && (st.phase == CHAP && st.num > 0 ==> st.processed < st.num)
  }

  predicate Finished(st: State) {
    st.num > 0 && st.processed >= st.num
  }

  // ------------------------------------------------------------------
  // One step of the parser

  datatype Step = Need | Fail(error: Error, used: nat) | Go(st: State, used: nat, replies: seq<seq<Byte>>)

  /** After the last attribute of a message without success, another message is expected. */
  function Settled(st: State): State {
    if st.phase == CHAP && st.processed >= st.num then st.(num := 0, processed := 0, datalen := 0) else st
  }

  function ReadHeader(st: State, input: seq<Byte>): Step {
    if |input| < 2 then Need
    else if st.num > 0 then Go(st.(attr := input[0], datalen := input[1]), 2, [])
    else if input[0] != 1 then Fail(WrongVersion, 2)
    else if input[1] == 0 then Fail(WontNegotiate, 2)
    else Go(Settled(st.(num := input[1])), 2, [])
  }

  function Response(mac: seq<Byte> -> seq<Byte>, data: seq<Byte>): seq<Byte> {
    [1, 1, 4, 16] + mac(data)
  }

  /** With no data of its own an attribute is judged by the byte read before, which is its own number. */
  function FirstByte(st: State, data: seq<Byte>): int {
    if data == [] then st.attr else data[0]
  }

  datatype Verdict = Bad(error: Error) | Good(phase: nat, replies: seq<seq<Byte>>)

  /** What an attribute and its data mean; unknown attributes are passed over. */
  function Judged(mac: seq<Byte> -> seq<Byte>, st: State, data: seq<Byte>): Verdict {
    if st.attr == 0 then
      if FirstByte(st, data) == 0 then Good(AUTHENTICATED, []) else Bad(Refused)
    else if st.attr == 3 then Good(st.phase, [Response(mac, data)])
    else if st.attr == 0x11 && FirstByte(st, data) != 0x85 then Bad(WrongAlgorithm)
    else Good(st.phase, [])
  }

  function ReadData(mac: seq<Byte> -> seq<Byte>, st: State, input: seq<Byte>): Step {
    if |input| < st.datalen then Need
    else
      match Judged(mac, st, input[..st.datalen])
      case Bad(error) => Fail(error, st.datalen)
      case Good(phase, replies) =>
        Go(Settled(st.(attr := -1, processed := st.processed + 1, phase := phase)), st.datalen, replies)
  }

  function NextStep(mac: seq<Byte> -> seq<Byte>, st: State, input: seq<Byte>): Step {
    if st.attr == -1 then ReadHeader(st, input) else ReadData(mac, st, input)
  }

  lemma StepIsSound(mac: seq<Byte> -> seq<Byte>, st: State, input: seq<Byte>)
    requires Sound(st) && !Finished(st)
    ensures var step := NextStep(mac, st, input);
      && (step.Fail? ==> step.used <= |input|)
      && (step.Go? ==> Sound(step.st) && step.used <= |input| && step.used < 256)
      && (step.Go? && step.used == 0 ==> st.attr != -1 && step.st.attr == -1)
  {
  }

  // ------------------------------------------------------------------
  // A call of the parser

  function Run(mac: seq<Byte> -> seq<Byte>, st: State, input: seq<Byte>): (r: Result)
    requires Sound(st)
    decreases |input|, if st.attr == -1 then 0 else 1
  {
    if Finished(st) then Result(st, input, [], Done)
    else
      StepIsSound(mac, st, input);
      match NextStep(mac, st, input)
      case Need => Result(st, input, [], Waiting)
      case Fail(error, used) => Result(st, input[used..], [], Failed(error))
      case Go(next, used, replies) =>
        var rest := Run(mac, next, input[used..]);
        rest.(replies := replies + rest.replies)
  }

  function Replying(replies: seq<seq<Byte>>, r: Result): Result {
    r.(replies := replies + r.replies)
  }

  /** A step that can be taken is the same when more has arrived. */
  lemma StepGrows(mac: seq<Byte> -> seq<Byte>, st: State, a: seq<Byte>, b: seq<Byte>)
    requires Sound(st) && !Finished(st) && !NextStep(mac, st, a).Need?
    ensures NextStep(mac, st, a + b) == NextStep(mac, st, a)
  {
    if st.attr != -1 {
      assert (a + b)[..st.datalen] == a[..st.datalen];
    }
  }

  lemma RunIsSound(mac: seq<Byte> -> seq<Byte>, st: State, input: seq<Byte>)
    requires Sound(st)
    ensures Sound(Run(mac, st, input).st)
    ensures Run(mac, st, input).outcome == Waiting ==>
      var r := Run(mac, st, input);
      !Finished(r.st) && NextStep(mac, r.st, r.unread).Need?
    decreases |input|, if st.attr == -1 then 0 else 1
  {
    hide NextStep, Sound;
    if !Finished(st) {
      StepIsSound(mac, st, input);
      var step := NextStep(mac, st, input);
      if step.Go? {
        RunIsSound(mac, step.st, input[step.used..]);
      }
    }
  }

  /** Two arrivals and two calls, or one call on both together: the same replies and outcome. */
  lemma {:induction false} RunSplits(mac: seq<Byte> -> seq<Byte>, st: State, a: seq<Byte>, b: seq<Byte>)
    requires Sound(st)
    ensures Sound(Run(mac, st, a).st)
    ensures var r := Run(mac, st, a);
      Run(mac, st, a + b)
        == if r.outcome == Waiting then Replying(r.replies, Run(mac, r.st, r.unread + b))
           else r.(unread := r.unread + b)
    decreases |a|, if st.attr == -1 then 0 else 1
  {
    hide NextStep, Sound;
    RunIsSound(mac, st, a);
    var r := Run(mac, st, a);
    if Finished(st) {
    } else {
      StepIsSound(mac, st, a);
      var step := NextStep(mac, st, a);
      if step.Need? {
        assert [] + Run(mac, st, a + b).replies == Run(mac, st, a + b).replies;
      } else {
        StepGrows(mac, st, a, b);
        assert (a + b)[step.used..] == a[step.used..] + b;
        if step.Go? {
          RunSplits(mac, step.st, a[step.used..], b);
          var rest := Run(mac, step.st, a[step.used..]);
          if rest.outcome == Waiting {
            ConcatAssoc(step.replies, rest.replies, Run(mac, rest.st, rest.unread + b).replies);
          }
        }
      }
    }
  }

  // ------------------------------------------------------------------
  // Repeated calls of the parser

  /** The parser called once per arrival until its first final outcome; later bytes stay unread. */
  function Calls(mac: seq<Byte> -> seq<Byte>, st: State, unread: seq<Byte>, chunks: seq<seq<Byte>>): (r: Result)
    requires Sound(st)
    decreases |chunks|
  {
    if chunks == [] then Result(st, unread, [], Waiting)
    else
      var r := Run(mac, st, unread + chunks[0]);
      RunIsSound(mac, st, unread + chunks[0]);
      if r.outcome == Waiting then Replying(r.replies, Calls(mac, r.st, r.unread, chunks[1..]))
      else r.(unread := r.unread + Join(chunks[1..]))
  }

  /** However the stream is cut, the calls come to what one call on the whole stream comes to. */
  lemma {:induction false} CutsDoNotMatter(mac: seq<Byte> -> seq<Byte>, st: State, unread: seq<Byte>,
                                           chunks: seq<seq<Byte>>)
    requires Sound(st) && !Finished(st) && NextStep(mac, st, unread).Need?
    ensures Calls(mac, st, unread, chunks) == Run(mac, st, unread + Join(chunks))
    decreases |chunks|
  {
    hide NextStep, Sound;
    if chunks == [] {
      assert unread + [] == unread;
    } else {
      var r := Run(mac, st, unread + chunks[0]);
      RunIsSound(mac, st, unread + chunks[0]);
      JoinHead(chunks);
      ConcatAssoc(unread, chunks[0], Join(chunks[1..]));
      RunSplits(mac, st, unread + chunks[0], Join(chunks[1..]));
      if r.outcome == Waiting {
        CutsDoNotMatter(mac, r.st, r.unread, chunks[1..]);
      }
    }
  }

  // ------------------------------------------------------------------
  // The driver

  datatype Driven = StillWaiting(replies: seq<seq<Byte>>) | Broken(replies: seq<seq<Byte>>, error: Error)
                  | Connects(replies: seq<seq<Byte>>, unread: seq<Byte>)

  function Heard(replies: seq<seq<Byte>>, d: Driven): Driven {
    match d
    case StillWaiting(r) => StillWaiting(replies + r)
    case Broken(r, error) => Broken(replies + r, error)
    case Connects(r, unread) => Connects(replies + r, unread)
  }

  /** How the driver takes the outcome of a call. */
  function Taken(r: Result): Driven {
    match r.outcome
    case Waiting => StillWaiting(r.replies)
    case Failed(error) => Broken(r.replies, error)
    case Done => Connects(r.replies, r.unread)
  }

  /**
   At each arrival the driver calls the parser while the phase is CHAP; once it is authenticated
   the driver sends its connection request without asking the parser.
   */
  function Drive(mac: seq<Byte> -> seq<Byte>, st: State, unread: seq<Byte>, chunks: seq<seq<Byte>>): (d: Driven)
    requires Sound(st)
    decreases |chunks|
  {
    if chunks == [] then StillWaiting([])
    else if st.phase == AUTHENTICATED then Connects([], unread + Join(chunks))
    else
      var r := Run(mac, st, unread + chunks[0]);
      RunIsSound(mac, st, unread + chunks[0]);
      if r.outcome == Waiting then Heard(r.replies, Drive(mac, r.st, r.unread, chunks[1..]))
      else Taken(r.(unread := r.unread + Join(chunks[1..])))
  }

  /** A cut here finds the parser authenticated but still in the middle of a message. */
  ghost predicate CutsMessage(mac: seq<Byte> -> seq<Byte>, st: State, input: seq<Byte>, k: nat)
    requires Sound(st)
  {
    k < |input| && Run(mac, st, input[..k]).outcome == Waiting && Run(mac, st, input[..k]).st.phase == AUTHENTICATED
  }

  ghost predicate NoCutMessage(mac: seq<Byte> -> seq<Byte>, st: State, input: seq<Byte>)
    requires Sound(st)
  {
    forall k: nat :: !CutsMessage(mac, st, input, k)
  }

  /** As long as no cut falls into such a message, the driver does the same for every cutting. */
  lemma {:induction false} DriverIgnoresCuts(mac: seq<Byte> -> seq<Byte>, st: State, unread: seq<Byte>,
                                             chunks: seq<seq<Byte>>)
    requires Sound(st) && st.phase == CHAP && !Finished(st) && NextStep(mac, st, unread).Need?
    requires forall i :: 0 <= i < |chunks| ==> chunks[i] != []
    requires forall k: nat :: |unread| < k ==> !CutsMessage(mac, st, unread + Join(chunks), k)
    ensures Drive(mac, st, unread, chunks) == Taken(Run(mac, st, unread + Join(chunks)))
    decreases |chunks|
  {
    hide NextStep, Sound, CutsMessage;
    if chunks == [] {
      assert unread + [] == unread;
    } else {
      var first, rest := unread + chunks[0], chunks[1..];
      var r := Run(mac, st, first);
      RunIsSound(mac, st, first);
      JoinHead(chunks);
      ConcatAssoc(unread, chunks[0], Join(rest));
      RunSplits(mac, st, first, Join(rest));
      if r.outcome == Waiting {
        assert chunks[0] != [] && |first| > |unread|;
        assert unread + Join(chunks) == first + Join(rest);
        DriverGoesOn(mac, st, first, chunks);
        if r.st.phase == CHAP {
          LaterCuts(mac, st, first, Join(rest), |unread|);
          DriverIgnoresCuts(mac, r.st, r.unread, rest);
        } else {
          assert chunks == [chunks[0]];
          assert r.unread + [] == r.unread;
        }
      }
    }
  }

  /** If the first arrival ends in the middle of an authenticated message, it was the last one. */
  lemma DriverGoesOn(mac: seq<Byte> -> seq<Byte>, st: State, first: seq<Byte>, chunks: seq<seq<Byte>>)
    requires Sound(st) && chunks != [] && Run(mac, st, first).outcome == Waiting
    requires forall i :: 0 <= i < |chunks| ==> chunks[i] != []
    requires !CutsMessage(mac, st, first + Join(chunks[1..]), |first|)
    ensures Sound(Run(mac, st, first).st)
    ensures Run(mac, st, first).st.phase == CHAP || |chunks| == 1
  {
    RunIsSound(mac, st, first);
    var whole := first + Join(chunks[1..]);
    assert whole[..|first|] == first;
    if |chunks| > 1 {
      assert chunks[1..][0] != [];
    }
  }

  lemma LaterCuts(mac: seq<Byte> -> seq<Byte>, st: State, first: seq<Byte>, later: seq<Byte>, n: nat)
    requires Sound(st) && Run(mac, st, first).outcome == Waiting && n <= |first|
    requires Sound(Run(mac, st, first).st)
    requires forall k: nat :: n < k ==> !CutsMessage(mac, st, first + later, k)
    ensures var r := Run(mac, st, first);
      forall k: nat :: |r.unread| < k ==> !CutsMessage(mac, r.st, r.unread + later, k)
  {
    hide Sound, NextStep;
    var r := Run(mac, st, first);
    forall k: nat | |r.unread| < k
      ensures !CutsMessage(mac, r.st, r.unread + later, k)
    {
      if k < |r.unread + later| {
        var j := k - |r.unread|;
        var m := |first| + j;
        assert (r.unread + later)[..k] == r.unread + later[..j];
        assert (first + later)[..m] == first + later[..j];
        RunSplits(mac, st, first, later[..j]);
        assert !CutsMessage(mac, st, first + later, m);
      }
    }
  }

  /** A cut in such a message makes the driver leave bytes unread that the parser would have taken. */
  lemma CutMessageShows(mac: seq<Byte> -> seq<Byte>, input: seq<Byte>, k: nat)
    requires CutsMessage(mac, START, input, k)
    ensures var r := Run(mac, START, input[..k]);
      && Drive(mac, START, [], [input[..k], input[k..]]) == Connects(r.replies, r.unread + input[k..])
      && Drive(mac, START, [], [input[..k], input[k..]]) != Taken(Run(mac, START, input))
    ensures k > 0
  {
    hide NextStep;
    var chunks := [input[..k], input[k..]];
    var r := Run(mac, START, input[..k]);
    RunIsSound(mac, START, input[..k]);
    RunSplits(mac, START, input[..k], input[k..]);
    assert input == input[..k] + input[k..];
    assert [] + input[..k] == input[..k] && chunks[1..] == [input[k..]];
    JoinOfOne(input[k..]);
    assert Drive(mac, r.st, r.unread, chunks[1..]) == Connects([], r.unread + input[k..]);
    assert r.replies + [] == r.replies;
    WaitingRunProgresses(mac, r.st, r.unread, input[k..]);
    if k == 0 {
      RunOfNothing(mac);
    }
  }

  lemma JoinOfOne(a: seq<Byte>)
    ensures Join([a]) == a
  {
    JoinHead([a]);
    assert [a][1..] == [] && a + [] == a;
  }

  lemma RunOfNothing(mac: seq<Byte> -> seq<Byte>)
    ensures Run(mac, START, []) == Result(START, [], [], Waiting)
  {
  }

  lemma {:induction false} RunShrinks(mac: seq<Byte> -> seq<Byte>, st: State, input: seq<Byte>)
    requires Sound(st)
    ensures |Run(mac, st, input).unread| <= |input|
    decreases |input|, if st.attr == -1 then 0 else 1
  {
    hide NextStep, Sound;
    if !Finished(st) {
      StepIsSound(mac, st, input);
      var step := NextStep(mac, st, input);
      if step.Go? {
        RunShrinks(mac, step.st, input[step.used..]);
      }
    }
  }

  /** A parser that waits takes at least one byte more before it is done. */
  lemma WaitingRunProgresses(mac: seq<Byte> -> seq<Byte>, st: State, unread: seq<Byte>, b: seq<Byte>)
    requires Sound(st) && !Finished(st) && NextStep(mac, st, unread).Need?
    ensures var r := Run(mac, st, unread + b); r.outcome == Done ==> |r.unread| < |unread + b|
  {
    var input := unread + b;
    StepIsSound(mac, st, input);
    var step := NextStep(mac, st, input);
    if step.Go? {
      hide Run;
      RunShrinks(mac, step.st, input[step.used..]);
      RunUnfolds(mac, st, input);
    }
  }

  lemma RunUnfolds(mac: seq<Byte> -> seq<Byte>, st: State, input: seq<Byte>)
    requires Sound(st) && !Finished(st) && NextStep(mac, st, input).Go?
    ensures var step := NextStep(mac, st, input);
      && Sound(step.st) && step.used <= |input|
      && Run(mac, st, input) == Replying(step.replies, Run(mac, step.st, input[step.used..]))
  {
    hide NextStep, Sound;
    StepIsSound(mac, st, input);
  }

  /** Every cutting of the stream into arrivals makes the driver do the same. */
  ghost predicate SameForAllCuts(mac: seq<Byte> -> seq<Byte>, input: seq<Byte>) {
    forall chunks: seq<seq<Byte>> ::
      (forall i :: 0 <= i < |chunks| ==> chunks[i] != []) && Join(chunks) == input
      ==> Drive(mac, START, [], chunks) == Taken(Run(mac, START, input))
  }

  /** Exactly when no cut falls into an authenticated message the driver is independent of the cuts. */
  lemma SameForAllCutsIff(mac: seq<Byte> -> seq<Byte>, input: seq<Byte>)
    ensures SameForAllCuts(mac, input) <==> NoCutMessage(mac, START, input)
  {
    hide Drive, Run, Taken, CutsMessage;
    if NoCutMessage(mac, START, input) {
      forall chunks: seq<seq<Byte>> | (forall i :: 0 <= i < |chunks| ==> chunks[i] != []) && Join(chunks) == input
        ensures Drive(mac, START, [], chunks) == Taken(Run(mac, START, input))
      {
        assert [] + Join(chunks) == input;
        DriverIgnoresCuts(mac, START, [], chunks);
      }
    } else {
      var k: nat :| CutsMessage(mac, START, input, k);
      CutMessageShows(mac, input, k);
      CutIsProper(mac, input, k);
      var chunks := [input[..k], input[k..]];
      assert chunks[1..] == [input[k..]];
      JoinHead(chunks);
      JoinOfOne(input[k..]);
      assert Join(chunks) == input[..k] + input[k..] == input;
    }
  }

  lemma CutIsProper(mac: seq<Byte> -> seq<Byte>, input: seq<Byte>, k: nat)
    requires CutsMessage(mac, START, input, k)
    ensures k < |input|
  {
  }

  /** In the whole run an attribute that authenticates is the last of its message, or the last bytes. */
  predicate SuccessComesLast(mac: seq<Byte> -> seq<Byte>, st: State, input: seq<Byte>)
    requires Sound(st)
    decreases |input|, if st.attr == -1 then 0 else 1
  {
    Finished(st)
    || (StepIsSound(mac, st, input);
        var step := NextStep(mac, st, input);
        step.Go? ==>
          && (st.phase == CHAP && step.st.phase == AUTHENTICATED ==> Finished(step.st) || step.used == |input|)
          && SuccessComesLast(mac, step.st, input[step.used..]))
  }

  /** The condition on the stream, message by message. */
  lemma {:induction false} NoCutMessageIff(mac: seq<Byte> -> seq<Byte>, st: State, input: seq<Byte>)
    requires Sound(st) && st.phase == CHAP
    ensures NoCutMessage(mac, st, input) <==> SuccessComesLast(mac, st, input)
    decreases |input|, if st.attr == -1 then 0 else 1
  {
    hide NextStep, Sound, CutsMessage;
    PhaseIsChap(st);
    StepIsSound(mac, st, input);
    var step := NextStep(mac, st, input);
    if step.Go? {
      var rest := input[step.used..];
      forall k: nat
        ensures CutsMessage(mac, st, input, k) <==> k >= step.used && CutsMessage(mac, step.st, rest, k - step.used)
      {
        CutAfterStep(mac, st, input, k);
      }
      if step.st.phase == CHAP {
        NoCutMessageIff(mac, step.st, rest);
        CutsShift(mac, st, input, step);
      } else {
        AuthenticatedNow(mac, st, input, step);
      }
    } else {
      forall k: nat
        ensures !CutsMessage(mac, st, input, k)
      {
        NoCutWithoutStep(mac, st, input, k);
      }
    }
  }

  lemma PhaseIsChap(st: State)
    requires Sound(st) && st.phase == CHAP
    ensures !Finished(st)
  {
  }

  lemma CutsShift(mac: seq<Byte> -> seq<Byte>, st: State, input: seq<Byte>, step: Step)
    requires Sound(st) && step.Go? && Sound(step.st) && step.used <= |input|
    requires forall k: nat ::
      CutsMessage(mac, st, input, k) <==> k >= step.used && CutsMessage(mac, step.st, input[step.used..], k - step.used)
    ensures NoCutMessage(mac, st, input) <==> NoCutMessage(mac, step.st, input[step.used..])
  {
    hide Sound, CutsMessage;
    var rest := input[step.used..];
    if j: nat :| CutsMessage(mac, step.st, rest, j) {
      var k := j + step.used;
      assert k - step.used == j;
      assert CutsMessage(mac, st, input, k);
    }
  }

  /** A cut of the input after a step is a cut of what the step leaves. */
  lemma CutAfterStep(mac: seq<Byte> -> seq<Byte>, st: State, input: seq<Byte>, k: nat)
    requires Sound(st) && st.phase == CHAP && NextStep(mac, st, input).Go?
    ensures var step := NextStep(mac, st, input);
      && Sound(step.st) && step.used <= |input|
      && (CutsMessage(mac, st, input, k)
          <==> k >= step.used && CutsMessage(mac, step.st, input[step.used..], k - step.used))
  {
    hide Sound;
    PhaseIsChap(st);
    StepIsSound(mac, st, input);
    var step := NextStep(mac, st, input);
    if k < |input| {
      assert input == input[..k] + input[k..];
      if k < step.used {
        NeedsAll(mac, st, input, k);
      } else {
        TakesEnough(mac, st, input, k);
        hide NextStep, Run;
        RunUnfolds(mac, st, input[..k]);
        assert input[..k][step.used..] == input[step.used..][..k - step.used];
      }
    }
  }

  lemma NeedsAll(mac: seq<Byte> -> seq<Byte>, st: State, input: seq<Byte>, k: nat)
    requires Sound(st) && st.phase == CHAP && NextStep(mac, st, input).Go? && k < NextStep(mac, st, input).used
    requires k <= |input|
    ensures !(Run(mac, st, input[..k]).outcome == Waiting && Run(mac, st, input[..k]).st.phase == AUTHENTICATED)
  {
  }

  lemma TakesEnough(mac: seq<Byte> -> seq<Byte>, st: State, input: seq<Byte>, k: nat)
    requires Sound(st) && !Finished(st) && NextStep(mac, st, input).Go? && NextStep(mac, st, input).used <= k <= |input|
    ensures NextStep(mac, st, input[..k]) == NextStep(mac, st, input)
  {
    if st.attr != -1 {
      assert input[..k][..st.datalen] == input[..st.datalen];
    }
  }

  lemma NoCutWithoutStep(mac: seq<Byte> -> seq<Byte>, st: State, input: seq<Byte>, k: nat)
    requires Sound(st) && st.phase == CHAP && !NextStep(mac, st, input).Go?
    ensures !CutsMessage(mac, st, input, k)
  {
    if k < |input| && !NextStep(mac, st, input[..k]).Need? {
      assert input == input[..k] + input[k..];
      StepGrows(mac, st, input[..k], input[k..]);
    }
  }

  /** The step that authenticates: a cut right after it falls into its message, unless that is over. */
  lemma AuthenticatedNow(mac: seq<Byte> -> seq<Byte>, st: State, input: seq<Byte>, step: Step)
    requires Sound(st) && st.phase == CHAP && step == NextStep(mac, st, input) && step.Go?
    requires Sound(step.st) && step.used <= |input| && step.st.phase == AUTHENTICATED
    requires forall k: nat ::
      CutsMessage(mac, st, input, k) <==> k >= step.used && CutsMessage(mac, step.st, input[step.used..], k - step.used)
    ensures NoCutMessage(mac, st, input) <==> SuccessComesLast(mac, st, input)
  {
    var rest := input[step.used..];
    StepIsSound(mac, st, input);
    AuthenticatedStays(mac, step.st, rest);
    if !Finished(step.st) && step.used < |input| {
      assert step.st.attr == -1;
      assert rest[..0] == [];
      assert Run(mac, step.st, []).outcome == Waiting;
      assert CutsMessage(mac, step.st, rest, step.used - step.used);
      assert CutsMessage(mac, st, input, step.used);
    } else {
      forall k: nat
        ensures !CutsMessage(mac, step.st, rest, k)
      {
      }
    }
  }

  lemma {:induction false} AuthenticatedStays(mac: seq<Byte> -> seq<Byte>, st: State, input: seq<Byte>)
    requires Sound(st) && st.phase == AUTHENTICATED
    ensures SuccessComesLast(mac, st, input)
    decreases |input|, if st.attr == -1 then 0 else 1
  {
    if !Finished(st) {
      StepIsSound(mac, st, input);
      var step := NextStep(mac, st, input);
      if step.Go? {
        assert step.st.phase == AUTHENTICATED;
        hide NextStep, Sound;
        AuthenticatedStays(mac, step.st, input[step.used..]);
      }
    }
  }

  /**
   Success first and a challenge after it, in one message of two attributes: in one arrival the
   parser answers the challenge, cut after the success attribute the driver connects instead and
   leaves the challenge to be taken for the proxy's answer.
   */
  lemma CutMessageExample(mac: seq<Byte> -> seq<Byte>)
    ensures var success: seq<Byte>, challenge: seq<Byte> := [1, 2, 0, 1, 0], [3, 1, 7];
      && Drive(mac, START, [], [success + challenge]) == Connects([Response(mac, [7])], [])
      && Drive(mac, START, [], [success, challenge]) == Connects([], challenge)
  {
    hide Drive, Run, Response;
    var success: seq<Byte>, challenge: seq<Byte> := [1, 2, 0, 1, 0], [3, 1, 7];
    var waiting := State(2, 1, -1, 1, AUTHENTICATED);
    SuccessAlone(mac);
    RunSplits(mac, START, success, challenge);
    ChallengeAlone(mac, waiting);
    assert [] + challenge == challenge;
    JoinOfOne(challenge);
    DriveTwo(mac, success, challenge);
    DriveOne(mac, success + challenge);
  }

  lemma DriveOne(mac: seq<Byte> -> seq<Byte>, a: seq<Byte>)
    requires Run(mac, START, a).outcome == Done
    ensures Drive(mac, START, [], [a]) == Taken(Run(mac, START, a))
  {
    hide Run;
    assert [] + a == a && [a][1..] == [];
    var r := Run(mac, START, a);
    assert r.unread + [] == r.unread;
  }

  lemma DriveTwo(mac: seq<Byte> -> seq<Byte>, a: seq<Byte>, b: seq<Byte>)
    requires Run(mac, START, a).outcome == Waiting && Run(mac, START, a).st.phase == AUTHENTICATED
    ensures Drive(mac, START, [], [a, b]) == Connects(Run(mac, START, a).replies, Run(mac, START, a).unread + b)
  {
    hide Run;
    assert [] + a == a && [a, b][1..] == [b];
    JoinOfOne(b);
    var r := Run(mac, START, a);
    RunIsSound(mac, START, a);
    assert Drive(mac, r.st, r.unread, [b]) == Connects([], r.unread + b);
    assert r.replies + [] == r.replies;
  }

  lemma SuccessAlone(mac: seq<Byte> -> seq<Byte>)
    ensures Run(mac, START, [1, 2, 0, 1, 0]) == Result(State(2, 1, -1, 1, AUTHENTICATED), [], [], Waiting)
  {
    hide Run;
    var input: seq<Byte> := [1, 2, 0, 1, 0];
    var s1, s2, s3 := State(2, 0, -1, 0, CHAP), State(2, 0, 0, 1, CHAP), State(2, 1, -1, 1, AUTHENTICATED);
    assert NextStep(mac, START, input) == Go(s1, 2, []);
    RunUnfolds(mac, START, input);
    assert input[2..] == [0, 1, 0];
    assert NextStep(mac, s1, [0, 1, 0]) == Go(s2, 2, []);
    RunUnfolds(mac, s1, [0, 1, 0]);
    assert [0, 1, 0][2..] == [0];
    assert NextStep(mac, s2, [0]) == Go(s3, 1, []);
    RunUnfolds(mac, s2, [0]);
    assert [0][1..] == [];
    WaitsForHeader(mac, s3);
  }

  lemma WaitsForHeader(mac: seq<Byte> -> seq<Byte>, st: State)
    requires Sound(st) && !Finished(st) && st.attr == -1
    ensures Run(mac, st, []) == Result(st, [], [], Waiting)
  {
  }

  lemma ChallengeAlone(mac: seq<Byte> -> seq<Byte>, st: State)
    requires st == State(2, 1, -1, 1, AUTHENTICATED)
    ensures Run(mac, st, [3, 1, 7]) == Result(State(2, 2, -1, 1, AUTHENTICATED), [], [Response(mac, [7])], Done)
  {
    hide Run, Response;
    var s1, s2 := State(2, 1, 3, 1, AUTHENTICATED), State(2, 2, -1, 1, AUTHENTICATED);
    assert NextStep(mac, st, [3, 1, 7]) == Go(s1, 2, []);
    RunUnfolds(mac, st, [3, 1, 7]);
    assert [3, 1, 7][2..] == [7] && [7][..1] == [7] && [7][1..] == [];
    assert NextStep(mac, s1, [7]) == Go(s2, 1, [Response(mac, [7])]);
    RunUnfolds(mac, s1, [7]);
    DoneAtOnce(mac, s2);
  }

  lemma DoneAtOnce(mac: seq<Byte> -> seq<Byte>, st: State)
    requires Sound(st) && Finished(st)
    ensures Run(mac, st, []) == Result(st, [], [], Done)
  {
  }
}
