/**
 The proxy socket's side of the CHAP exchange: the parser as a loop over the pending input.

 The fields are those of the socket's structure; the data buffer is local to each call, and its
 first byte may be left over from the attribute's own head.  The driver's part is the method
 that takes an arrival.
 */
module ChapSocket {
  import opened Bytes
  import opened Bufchain
  import opened Chap

  class ProxySocket {
    const mac: seq<Byte> -> seq<Byte>
    const pending: Chain
    var num: nat
    var processed: nat
    var attr: int
    var datalen: nat
    var phase: nat
    var sent: seq<seq<Byte>>

    ghost function Current(): State
      reads this
    {
      State(num, processed, attr, datalen, phase)
    }

    ghost predicate Valid()
      reads this, pending, pending.Repr
    {
      && this !in pending.Repr && pending.Valid()
      && Sound(Current())
    }

    /** An attribute without data is never waited for. */
    ghost predicate Awaits()
      reads this
    {
      attr == -1 || datalen > 0
    }

    constructor (mac: seq<Byte> -> seq<Byte>, pending: Chain)
      requires pending.Valid()
      ensures Valid() && Awaits() && Current() == START && sent == []
      ensures this.pending == pending && this.mac == mac
    {
      this.mac, this.pending := mac, pending;
      num, processed, attr, datalen, phase, sent := 0, 0, -1, 0, CHAP, [];
    }

    /** Takes `n` bytes off the pending input into a buffer. */
    method Take(data: array<Byte>, n: nat)
      requires Valid() && n <= |pending.Contents()| && n <= data.Length
      requires data !in pending.Repr
      modifies data, pending, pending.Repr
      ensures Valid() && data !in pending.Repr && pending.Repr == old(pending.Repr)
      ensures data[..] == old(pending.Contents())[..n] + old(data[n..])
      ensures pending.Contents() == old(pending.Contents())[n..]
    {
      hide Chain.Chained, Join, Sound;
      var bytes := pending.Fetch(n);
      pending.Consume(n);
      ghost var was := data[..];
      Overlay(data, 0, bytes, data.Length);
      assert data[..] == data[..data.Length] == Overlaid(was, 0, bytes);
    }

    method Settle()
      modifies this`num, this`processed, this`datalen
      ensures Current() == Settled(old(Current()))
    {
      if phase == CHAP && processed >= num {
        num := 0;
        processed := 0;
        datalen := 0;
      }
    }

    /** Two bytes: the head of a message, or of an attribute. */
    method TakeHeader(data: array<Byte>) returns (stop: Option<Outcome>)
      requires Valid() && data !in pending.Repr && data.Length == 260 && !Finished(Current()) && attr == -1
      modifies this`num, this`processed, this`attr, this`datalen, data, pending, pending.Repr
      ensures Valid() && data !in pending.Repr && pending.Repr == old(pending.Repr)
      ensures Took(mac, old(Current()), old(pending.Contents()), old(sent), stop, Current(), pending.Contents(), sent)
      ensures stop.Some? ==> attr == -1
      ensures stop == None ==> |pending.Contents()| == |old(pending.Contents())| - 2
      ensures attr != -1 ==> data[0] == attr && !Finished(Current())
    {
      hide Chain.Chained, Chain.Valid, Join;
      var size := pending.Size();
      if size < 2 {
        return Some(Waiting);
      }
      ghost var input := pending.Contents();
      Take(data, 2);
      assert data[0] == data[..][0] == input[0] && data[1] == data[..][1] == input[1];
      if num != 0 {
        attr := data[0];
        datalen := data[1];
        return None;
      }
      if data[0] != 1 {
        return Some(Failed(WrongVersion));
      }
      if data[1] == 0 {
        return Some(Failed(WontNegotiate));
      }
      num := data[1];
      Settle();
      return None;
    }

    /** The data of an attribute; those of an unknown one are passed over. */
    method TakeData(data: array<Byte>) returns (stop: Option<Outcome>)
      requires Valid() && data !in pending.Repr && data.Length == 260 && !Finished(Current()) && attr != -1
      requires datalen == 0 ==> data[0] == attr
      modifies this`num, this`processed, this`attr, this`datalen, this`phase, this`sent, data, pending, pending.Repr
      ensures Valid() && data !in pending.Repr && pending.Repr == old(pending.Repr)
      ensures Took(mac, old(Current()), old(pending.Contents()), old(sent), stop, Current(), pending.Contents(), sent)
      ensures stop == None ==> attr == -1 && |pending.Contents()| == |old(pending.Contents())| - old(datalen)
      ensures stop == Some(Waiting) ==> datalen > 0
    {
      hide Chain.Chained, Chain.Valid, Join, Judged;
      var size := pending.Size();
      if size < datalen {
        return Some(Waiting);
      }
      ghost var bytes := pending.Contents()[..datalen];
      StepIsSound(mac, Current(), pending.Contents());
      Take(data, datalen);
      assert data[..datalen] == data[..][..datalen] == bytes;
      assert data[0] == data[..][0];
      var bad := Judge(data);
      if bad.Some? {
        return Some(Failed(bad.value));
      }
      attr := -1;
      processed := processed + 1;
      Settle();
      return None;
    }

    method Judge(data: array<Byte>) returns (bad: Option<Error>)
      requires data.Length == 260 && datalen < 256 && (datalen == 0 ==> data[0] == attr)
      modifies this`phase, this`sent
      ensures match Judged(mac, old(Current()), data[..datalen])
        case Bad(error) => bad == Some(error) && Current() == old(Current()) && sent == old(sent)
        case Good(next, replies) =>
          bad == None && Current() == old(Current()).(phase := next) && sent == old(sent) + replies
    {
      hide Response;
      if attr == 0 {
        if data[0] != 0 {
          return Some(Refused);
        }
        phase := AUTHENTICATED;
      } else if attr == 3 {
        sent := sent + [Response(mac, data[..datalen])];
      } else if attr == 0x11 {
        if data[0] != 0x85 {
          return Some(WrongAlgorithm);
        }
      }
      return None;
    }

    /** One turn of the loop: the head of an attribute if none is awaited, then its data. */
    method Turn(data: array<Byte>) returns (stop: Option<Outcome>)
      requires Valid() && Awaits() && data !in pending.Repr && data.Length == 260 && !Finished(Current())
      modifies this`num, this`processed, this`attr, this`datalen, this`phase, this`sent, data, pending, pending.Repr
      ensures Valid() && data !in pending.Repr && pending.Repr == old(pending.Repr)
      ensures stop == None || stop == Some(Waiting) ==> Awaits()
      ensures stop == None ==> |pending.Contents()| < |old(pending.Contents())|
      ensures Follows(Run(mac, old(Current()), old(pending.Contents())), old(sent),
                      if stop == None then Run(mac, Current(), pending.Contents())
                      else Result(Current(), pending.Contents(), [], stop.value), sent)
    {
      hide Chain.Chained, Chain.Valid, Join, NextStep, Run, Follows, Took, Sound, Finished;
      ghost var st0, input0, sent0 := Current(), pending.Contents(), sent;
      FollowsItself(Run(mac, st0, input0), sent0);
      if attr == -1 {
        stop := TakeHeader(data);
        Stepped(mac, st0, input0, sent0, stop, Current(), pending.Contents(), sent);
        if stop.Some? {
          return;
        }
      }
      if attr != -1 {
        ghost var st1, input1, sent1 := Current(), pending.Contents(), sent;
        stop := TakeData(data);
        Stepped(mac, st1, input1, sent1, stop, Current(), pending.Contents(), sent);
        FollowsOn(Run(mac, st0, input0), sent0, Run(mac, st1, input1), sent1,
                  if stop == None then Run(mac, Current(), pending.Contents())
                  else Result(Current(), pending.Contents(), [], stop.value), sent);
      }
    }

    /** One call of the parser. */
    method HandleChap() returns (outcome: Outcome)
      requires Valid() && Awaits()
      modifies this`num, this`processed, this`attr, this`datalen, this`phase, this`sent, pending, pending.Repr
      ensures Valid() && (outcome == Waiting ==> Awaits())
      ensures var r := Run(mac, old(Current()), old(pending.Contents()));
        && Current() == r.st && pending.Contents() == r.unread && outcome == r.outcome
        && sent == old(sent) + r.replies
    {
      hide Chain.Chained, Chain.Valid, Join, NextStep, Sound, Run, Follows;
      var data := new Byte[260];
      ghost var whole := Run(mac, Current(), pending.Contents());
      FollowsItself(whole, sent);
      while num == 0 || processed < num
        invariant Valid() && Awaits() && fresh(data) && data !in pending.Repr && pending.Repr == old(pending.Repr)
        invariant Follows(whole, old(sent), Run(mac, Current(), pending.Contents()), sent)
        decreases |pending.Contents()|
      {
        ghost var st1, input1, sent1 := Current(), pending.Contents(), sent;
        var stop := Turn(data);
        FollowsOn(whole, old(sent), Run(mac, st1, input1), sent1,
                  if stop == None then Run(mac, Current(), pending.Contents())
                  else Result(Current(), pending.Contents(), [], stop.value), sent);
        if stop.Some? {
          FollowsEnd(whole, old(sent), Current(), pending.Contents(), stop.value, sent);
          return stop.value;
        }
      }
      RunEnds(mac, Current(), pending.Contents());
      FollowsEnd(whole, old(sent), Current(), pending.Contents(), Done, sent);
      return Done;
    }

    /** An arrival: the parser is called only in the CHAP phase, and Done means that the driver connects. */
    method Receive(arrival: seq<Byte>) returns (outcome: Outcome)
      requires Valid() && Awaits()
      modifies this`num, this`processed, this`attr, this`datalen, this`phase, this`sent, pending, pending.Repr
      ensures Valid() && (outcome == Waiting ==> Awaits())
      ensures old(phase) == AUTHENTICATED ==>
        && outcome == Done && Current() == old(Current()) && sent == old(sent)
        && pending.Contents() == old(pending.Contents()) + arrival
      ensures old(phase) == CHAP ==>
        var r := Run(mac, old(Current()), old(pending.Contents()) + arrival);
        && Current() == r.st && pending.Contents() == r.unread && outcome == r.outcome
        && sent == old(sent) + r.replies
    {
      hide Chain.Chained, Chain.Valid, Join, Run;
      pending.Add(arrival);
      outcome := Done;
      if phase == CHAP {
        outcome := HandleChap();
      }
    }
  }

  /** The whole result is what was sent so far and the result of going on from here. */
  ghost predicate Follows(whole: Result, before: seq<seq<Byte>>, r: Result, sent: seq<seq<Byte>>) {
    && r.st == whole.st && r.unread == whole.unread && r.outcome == whole.outcome
    && before + whole.replies == sent + r.replies
  }

  /** What a part of the loop did is the step of the specification. */
  ghost predicate Took(mac: seq<Byte> -> seq<Byte>, st0: State, input0: seq<Byte>, sent0: seq<seq<Byte>>,
                       stop: Option<Outcome>, st: State, input: seq<Byte>, sent: seq<seq<Byte>>) {
    match NextStep(mac, st0, input0)
    case Need => stop == Some(Waiting) && st == st0 && input == input0 && sent == sent0
    case Fail(error, used) =>
      used <= |input0| && stop == Some(Failed(error)) && st == st0 && input == input0[used..] && sent == sent0
    case Go(next, used, replies) =>
      used <= |input0| && stop == None && st == next && input == input0[used..] && sent == sent0 + replies
  }

  lemma FollowsItself(r: Result, sent: seq<seq<Byte>>)
    ensures Follows(r, sent, r, sent)
  {
  }

  lemma FollowsEnd(whole: Result, before: seq<seq<Byte>>, st: State, input: seq<Byte>, outcome: Outcome,
                   sent: seq<seq<Byte>>)
    requires Follows(whole, before, Result(st, input, [], outcome), sent)
    ensures st == whole.st && input == whole.unread && outcome == whole.outcome && sent == before + whole.replies
  {
    assert sent + [] == sent;
  }

  lemma FollowsOn(r0: Result, sent0: seq<seq<Byte>>, r1: Result, sent1: seq<seq<Byte>>,
                  r2: Result, sent2: seq<seq<Byte>>)
    requires Follows(r0, sent0, r1, sent1) && Follows(r1, sent1, r2, sent2)
    ensures Follows(r0, sent0, r2, sent2)
  {
  }

  lemma Stepped(mac: seq<Byte> -> seq<Byte>, st0: State, input0: seq<Byte>, sent0: seq<seq<Byte>>,
                stop: Option<Outcome>, st: State, input: seq<Byte>, sent: seq<seq<Byte>>)
    requires Sound(st0) && !Finished(st0) && Sound(st) && Took(mac, st0, input0, sent0, stop, st, input, sent)
    ensures Follows(Run(mac, st0, input0), sent0,
                    if stop == None then Run(mac, st, input) else Result(st, input, [], stop.value), sent)
  {
    hide NextStep, Sound;
    var step := NextStep(mac, st0, input0);
    if step.Go? {
      ConcatAssoc(sent0, step.replies, Run(mac, st, input).replies);
    }
  }

  lemma RunEnds(mac: seq<Byte> -> seq<Byte>, st: State, input: seq<Byte>)
    requires Sound(st) && Finished(st)
    ensures Run(mac, st, input) == Result(st, input, [], Done)
  {
  }
}
