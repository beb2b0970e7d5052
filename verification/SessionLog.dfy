/**
 The session log: opening its file may have to wait for the user's answer, and what is logged
 in the meantime waits in a queue.
 */
module SessionLog {
  import opened Bytes

  datatype Phase = Closed | Opening | Open | Error

  /**
   What the log meets outside: whether logging is on at all, the mode settled on for the file (1 to append,
   2 to write anew, below 0 to ask the user first), whether it can be opened, its header line,
   what is in the file already, and how many bytes the disk has room for.
   */
  datatype World = World(logtype: nat, mode: int, opens: bool, header: seq<Byte>, before: seq<Byte>, room: nat)

  /** `mode` is that in which the file was opened, or 0. */
  datatype Log = Log(phase: Phase, queue: seq<Byte>, file: seq<Byte>, room: nat, mode: int)

  function Start(w: World): Log {
    Log(Closed, [], w.before, w.room, 0)
  }

  // ------------------------------------------------------------------
  // What the calls do

  /** Output in a settled phase: queued, written as far as there is room, or ignored. */
  function Put(s: Log, data: seq<Byte>): Log {
    match s.phase
    case Opening => s.(queue := s.queue + data)
    case Open =>
      if |data| <= s.room then s.(file := s.file + data, room := s.room - |data|)
      else s.(file := s.file + data[..s.room], room := 0, phase := Error)
    case _ => s
  }

  /** The file opened or not, with its header. */
  function Begun(w: World, s: Log, mode: nat): Log {
    if mode == 0 || !w.opens then s.(phase := Error)
    else Put(s.(phase := Open, mode := mode, file := if mode == 1 then s.file else []), w.header)
  }

  /** The answer: the file is opened or not, and the queue is written out after the header. */
  function Answered(w: World, s: Log, mode: nat): Log {
    var begun := Begun(w, s, mode);
    Put(begun, begun.queue).(queue := [])
  }

  function Opened(w: World, s: Log): Log {
    if s.phase != Closed || w.logtype == 0 then s
    else if w.mode < 0 then s.(phase := Opening)
    else Answered(w, s, w.mode)
  }

  function Written(w: World, s: Log, data: seq<Byte>): Log {
    Put(Opened(w, s), data)
  }

  /** Writing two pieces is writing both at once, even if the disk fills up in between. */
  lemma PutsJoin(s: Log, a: seq<Byte>, b: seq<Byte>)
    ensures Put(Put(s, a), b) == Put(s, a + b)
  {
    match s.phase
    case Opening =>
      ConcatAssoc(s.queue, a, b);
    case Open =>
      if |a| > s.room {
        assert (a + b)[..s.room] == a[..s.room];
      } else if |a + b| > s.room {
        assert (a + b)[..s.room] == a + b[..s.room - |a|];
        ConcatAssoc(s.file, a, b[..s.room - |a|]);
      } else {
        ConcatAssoc(s.file, a, b);
      }
    case _ =>
  }

  lemma PutNothing(s: Log)
    ensures Put(s, []) == s
  {
    assert s.file + [] == s.file && s.queue + [] == s.queue;
  }

  // ------------------------------------------------------------------
  // Runs

  /** Output of the session, or the user's answer; an answer comes only while one is awaited. */
  datatype Event = Submit(data: seq<Byte>) | Answer(mode: nat)

  function Next(w: World, s: Log, e: Event): Log {
    match e
    case Submit(data) => Written(w, s, data)
    case Answer(mode) => if s.phase == Opening then Answered(w, s, mode) else s
  }

  function Run(w: World, events: seq<Event>): Log {
    if events == [] then Start(w) else Next(w, Run(w, events[..|events| - 1]), events[|events| - 1])
  }

  function Submitted(events: seq<Event>): seq<Byte> {
    if events == [] then []
    else
      var e := events[|events| - 1];
      Submitted(events[..|events| - 1]) + (if e.Submit? then e.data else [])
  }

  /** As much of the data as there is room for. */
  function Fit(data: seq<Byte>, room: nat): seq<Byte> {
    if |data| <= room then data else data[..room]
  }

  function Base(w: World, mode: int): seq<Byte> {
    if mode == 1 then w.before else []
  }

  /** What holds after every run, `sub` being all that was submitted. */
  ghost predicate Holds(w: World, s: Log, sub: seq<Byte>) {
    && (s.phase != Opening ==> s.queue == [])
    && (s.phase == Opening ==> s.queue == sub)
    && (s.mode == 0 ==> s.file == w.before && s.room == w.room && s.phase != Open)
    && (s.phase == Closed ==> s.mode == 0 && (sub == [] || w.logtype == 0))
    && (s.phase == Opening ==> s.mode == 0)
    && (s.mode != 0 ==>
          && s.file == Base(w, s.mode) + Fit(w.header + sub, w.room)
          && (s.phase == Open <==> |w.header + sub| <= w.room)
          && (s.phase == Open ==> s.room == w.room - |w.header + sub|))
  }

  lemma OpensWell(w: World, s: Log, sub: seq<Byte>, mode: nat)
    requires s.phase == Opening || s.phase == Closed
    requires s.mode == 0 && s.file == w.before && s.room == w.room && s.queue == sub
    ensures Holds(w, Answered(w, s, mode), sub)
    ensures Answered(w, s, mode).phase == Open || Answered(w, s, mode).phase == Error
  {
    hide Put;
    if mode == 0 || !w.opens {
      PutIgnored(s.(phase := Error), s.queue);
    } else {
      var ready := s.(phase := Open, mode := mode, file := Base(w, mode));
      PutsJoin(ready, w.header, sub);
      PutFits(ready, w.header + sub);
      PutKeepsQueue(ready, w.header);
    }
  }

  lemma PutIgnored(s: Log, data: seq<Byte>)
    requires s.phase == Error
    ensures Put(s, data) == s
  {
  }

  lemma PutKeepsQueue(s: Log, data: seq<Byte>)
    requires s.phase == Open
    ensures Put(s, data).queue == s.queue && Put(s, data).mode == s.mode
    ensures Put(s, data).phase != Opening && Put(s, data).phase != Closed
  {
  }

  lemma PutFits(s: Log, data: seq<Byte>)
    requires s.phase == Open
    ensures var p := Put(s, data);
      && p.file == s.file + Fit(data, s.room) && p.mode == s.mode && p.queue == s.queue
      && p.phase == (if |data| <= s.room then Open else Error)
      && p.room == (if |data| <= s.room then s.room - |data| else 0)
  {
  }

  /** More output, once the file has been opened. */
  lemma WritesWell(w: World, s: Log, sub: seq<Byte>, data: seq<Byte>)
    requires Holds(w, s, sub) && s.phase != Closed
    ensures Holds(w, Put(s, data), sub + data)
  {
    hide Base;
    ConcatAssoc(w.header, sub, data);
    if s.phase == Open {
      PutFits(s, data);
      FitGrows(w.header + sub, data, w.room);
      ConcatAssoc(Base(w, s.mode), w.header + sub, Fit(data, s.room));
    } else if s.phase == Error && s.mode != 0 {
      FitFull(w.header + sub, data, w.room);
    }
  }

  lemma FitGrows(a: seq<Byte>, b: seq<Byte>, room: nat)
    requires |a| <= room
    ensures Fit(a + b, room) == a + Fit(b, room - |a|)
  {
  }

  lemma FitFull(a: seq<Byte>, b: seq<Byte>, room: nat)
    requires |a| > room
    ensures Fit(a + b, room) == Fit(a, room)
  {
  }

  /** The log's file after any run: the header, then all that was submitted, in order, each byte once. */
  lemma {:induction false} RunHolds(w: World, events: seq<Event>)
    ensures Holds(w, Run(w, events), Submitted(events))
  {
    if events != [] {
      var front, e := events[..|events| - 1], events[|events| - 1];
      RunHolds(w, front);
      NextHolds(w, Run(w, front), Submitted(front), e);
    }
  }

  lemma NextHolds(w: World, s: Log, sub: seq<Byte>, e: Event)
    requires Holds(w, s, sub)
    ensures Holds(w, Next(w, s, e), sub + (if e.Submit? then e.data else []))
  {
    hide Put, Answered, Fit, Base;
    match e
    case Answer(mode) =>
      assert sub + [] == sub;
      if s.phase == Opening {
        OpensWell(w, s, sub, mode);
      }
    case Submit(data) =>
      if s.phase != Closed {
        WritesWell(w, s, sub, data);
      } else if w.logtype == 0 {
        PutClosed(s, data);
      } else {
        if w.mode >= 0 {
          OpensWell(w, s, sub, w.mode);
        }
        WritesWell(w, Opened(w, s), sub, data);
      }
  }

  lemma PutClosed(s: Log, data: seq<Byte>)
    requires s.phase == Closed
    ensures Put(s, data) == s
  {
  }

  /** Whether anything was submitted at all; the first time opens the file or asks. */
  predicate Wrote(events: seq<Event>) {
    exists i :: 0 <= i < |events| && events[i].Submit?
  }

  /** The answer that counts: the first one after something was submitted. */
  function AnswerTaken(events: seq<Event>): Option<nat> {
    if events == [] then None
    else
      var front, e := events[..|events| - 1], events[|events| - 1];
      if AnswerTaken(front) == None && e.Answer? && Wrote(front) then Some(e.mode) else AnswerTaken(front)
  }

  /** The mode the file is opened in, from what the calls were given. */
  function ModeFor(w: World, wrote: bool, answer: Option<nat>): int {
    if w.logtype == 0 || !wrote || !w.opens then 0
    else if w.mode >= 0 then w.mode
    else if answer == None then 0 else answer.value
  }

  lemma WroteMore(events: seq<Event>)
    requires events != []
    ensures Wrote(events) <==> Wrote(events[..|events| - 1]) || events[|events| - 1].Submit?
  {
    var front := events[..|events| - 1];
    if Wrote(front) {
      var i :| 0 <= i < |front| && front[i].Submit?;
      assert events[i].Submit?;
    }
    if Wrote(events) {
      var i :| 0 <= i < |events| && events[i].Submit?;
      assert i < |front| ==> front[i].Submit?;
    }
  }

  /** The mode of a run, and whether an answer is still awaited, follow from its events. */
  lemma {:induction false} ModeFollowsEvents(w: World, events: seq<Event>)
    ensures var s := Run(w, events);
      && s.mode == ModeFor(w, Wrote(events), AnswerTaken(events))
      && (s.phase == Closed <==> w.logtype == 0 || !Wrote(events))
      && (s.phase == Opening <==> w.logtype != 0 && Wrote(events) && w.mode < 0 && AnswerTaken(events) == None)
    ensures AnswerTaken(events) != None ==> Wrote(events)
  {
    hide Put, Wrote;
    if events == [] {
      NothingWritten();
    } else {
      var front, e := events[..|events| - 1], events[|events| - 1];
      ModeFollowsEvents(w, front);
      WroteMore(events);
      var s := Run(w, front);
      match e
      case Answer(mode) =>
        if s.phase == Opening {
          AnsweredMode(w, s, mode);
        }
      case Submit(data) =>
        if s.phase == Closed && w.logtype != 0 && w.mode >= 0 {
          AnsweredMode(w, s, w.mode);
        }
        PutMode(Opened(w, s), data);
    }
  }

  lemma NothingWritten()
    ensures !Wrote([])
  {
  }

  lemma PutMode(s: Log, data: seq<Byte>)
    ensures Put(s, data).mode == s.mode
    ensures Put(s, data).phase == Closed <==> s.phase == Closed
    ensures Put(s, data).phase == Opening <==> s.phase == Opening
  {
  }

  lemma AnsweredMode(w: World, s: Log, mode: nat)
    requires (s.phase == Closed || s.phase == Opening) && s.mode == 0
    ensures var a := Answered(w, s, mode);
      a.mode == (if w.opens then mode else 0) && (a.phase == Open || a.phase == Error)
  {
    hide Put;
    var begun := Begun(w, s, mode);
    PutMode(s.(phase := Open, mode := mode, file := if mode == 1 then s.file else []), w.header);
    PutMode(begun, begun.queue);
    PutSettled(s.(phase := Open, mode := mode, file := if mode == 1 then s.file else []), w.header);
    PutSettled(begun, begun.queue);
  }

  lemma PutSettled(s: Log, data: seq<Byte>)
    requires s.phase == Open || s.phase == Error
    ensures Put(s, data).phase == Open || Put(s, data).phase == Error
  {
  }

  /** When the answer comes makes no difference: the same output and the same answer give the same file. */
  lemma TimingDoesNotMatter(w: World, a: seq<Event>, b: seq<Event>)
    requires Submitted(a) == Submitted(b) && Wrote(a) == Wrote(b) && AnswerTaken(a) == AnswerTaken(b)
    ensures Run(w, a).file == Run(w, b).file && Run(w, a).phase == Run(w, b).phase
    ensures Run(w, a).queue == Run(w, b).queue && Run(w, a).mode == Run(w, b).mode
  {
    hide Run, Wrote, AnswerTaken, Fit, Base;
    RunHolds(w, a);
    RunHolds(w, b);
    ModeFollowsEvents(w, a);
    ModeFollowsEvents(w, b);
  }

  /** Whichever mode the user chooses, nothing is left in the queue, and the log is open or given up. */
  lemma AnswerEmptiesQueue(w: World, events: seq<Event>, mode: nat)
    requires Run(w, events).phase == Opening
    ensures var s := Run(w, events + [Answer(mode)]);
      && s.queue == [] && (s.phase == Open || s.phase == Error)
      && (mode == 0 || !w.opens <==> s.mode == 0)
      && (s.mode == 0 ==> s.file == w.before && s.phase == Error)
  {
    hide Run;
    var all := events + [Answer(mode)];
    assert all[..|all| - 1] == events;
    RunUnfolds(w, all);
    RunHolds(w, events);
    OpensWell(w, Run(w, events), Submitted(events), mode);
  }

  lemma RunUnfolds(w: World, events: seq<Event>)
    requires events != []
    ensures Run(w, events) == Next(w, Run(w, events[..|events| - 1]), events[|events| - 1])
  {
  }
}
