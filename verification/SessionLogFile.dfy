/**
 The logging context: opening, writing and the callback that drains the queue.

 Writing opens the file on first use, opening may call the callback at once, and the callback
 writes: the three call each other, but never while the file is still closed.
 */
module SessionLogFile {
  import opened Bytes
  import opened Bufchain
  import opened SessionLog

  class LogContext {
    const w: World
    const queue: Chain
    var phase: Phase
    var lgfp: bool
    var file: seq<Byte>
    var room: nat
    ghost var mode: int

    ghost predicate Valid()
      reads this, queue, queue.Repr
    {
      && this !in queue.Repr && queue.Valid()
      && (phase == Open ==> lgfp)
    }

    ghost function Current(): Log
      reads this, queue
    {
      Log(phase, queue.Contents(), file, room, mode)
    }

    constructor (w: World)
      ensures Valid() && Current() == Start(w) && this.w == w
      ensures fresh(queue) && fresh(queue.Repr)
    {
      this.w := w;
      queue := new Chain();
      phase, lgfp, file, room, mode := Closed, false, w.before, w.room, 0;
    }

    /** Writes as much as there is room for. */
    method Fwrite(data: seq<Byte>) returns (n: nat)
      modifies this`file, this`room
      ensures n == (if |data| <= old(room) then |data| else old(room))
      ensures file == old(file) + data[..n] && room == old(room) - n
    {
      n := if |data| <= room then |data| else room;
      file := file + data[..n];
      room := room - n;
    }

    method Fclose()
      modifies this`lgfp, this`phase
      ensures phase == Closed && !lgfp
    {
      if lgfp {
        lgfp := false;
      }
      phase := Closed;
    }

    /** All output to the log comes through here. */
    method LogWrite(data: seq<Byte>)
      requires Valid()
      modifies this`phase, this`lgfp, this`file, this`room, this`mode, queue, queue.Repr
      ensures Valid() && fresh(queue.Repr - old(queue.Repr))
      ensures Current() == Written(w, old(Current()), data)
      ensures old(phase) != Opening && old(phase) != Closed ==> queue.Repr == old(queue.Repr)
      decreases if phase == Closed then 3 else 0, 0
    {
      hide Chain.Valid, Chain.Chained, Join, Answered;
      if phase == Closed {
        Fopen();
      }
      if phase == Opening {
        queue.Add(data);
      } else if phase == Open {
        var n := Fwrite(data);
        if n < |data| {
          Fclose();
          phase := Error;
        }
        assert data[..|data|] == data;
      }
    }

    /** Opens the file, unless the user has to be asked first. */
    method Fopen()
      requires Valid()
      modifies this`phase, this`lgfp, this`file, this`room, this`mode, queue, queue.Repr
      ensures Valid() && fresh(queue.Repr - old(queue.Repr))
      ensures Current() == Opened(w, old(Current()))
      decreases 2, 0
    {
      hide Chain.Valid, Chain.Chained, Join, Answered;
      if phase != Closed {
        return;
      }
      if w.logtype == 0 {
        return;
      }
      if w.mode < 0 {
        phase := Opening;
      } else {
        FopenCallback(w.mode);
      }
    }

    /** The mode is settled: the header is written, then what is queued. */
    method FopenCallback(mode: nat)
      requires Valid() && (phase == Closed || phase == Opening)
      modifies this`phase, this`lgfp, this`file, this`room, this`mode, queue, queue.Repr
      ensures Valid() && fresh(queue.Repr - old(queue.Repr))
      ensures Current() == Answered(w, old(Current()), mode)
      decreases 1, 0
    {
      hide Chain.Valid, Chain.Chained, Join, Put;
      if mode == 0 {
        phase := Error;
      } else if w.opens {
        if mode != 1 {
          file := [];
        }
        lgfp := true;
        phase := Open;
        this.mode := mode;
      } else {
        phase := Error;
      }
      if phase == Open {
        LogWrite(w.header);
        ghost var base := if mode == 1 then old(file) else [];
        PutKeepsQueue(old(Current()).(phase := Open, mode := mode, file := base), w.header);
      }
      assert Current() == Begun(w, old(Current()), mode);
      Drain();
    }

    /** Writes the queue out, piece by piece. */
    method Drain()
      requires Valid() && (phase == Open || phase == Error)
      modifies this`phase, this`lgfp, this`file, this`room, this`mode, queue, queue.Repr
      ensures Valid() && queue.Repr == old(queue.Repr)
      ensures Current() == Put(old(Current()), old(queue.Contents())).(queue := [])
      decreases 0, 2
    {
      hide Chain.Valid, Chain.Chained, Join, Put;
      ghost var start := Current();
      ghost var all := queue.Contents();
      PutNothing(start);
      ghost var done := 0;
      var size := queue.Size();
      while size > 0
        invariant Valid() && queue.Repr == old(queue.Repr) && (phase == Open || phase == Error)
        invariant size == |queue.Contents()|
        invariant done + size == |all| && queue.Contents() == all[done..]
        invariant Current().(queue := []) == Put(start, all[..done]).(queue := [])
        decreases size
      {
        size, done := DrainPiece(start, all, done);
      }
      assert all[..done] == all;
    }

    method DrainPiece(ghost start: Log, ghost all: seq<Byte>, ghost done: nat) returns (size: nat, ghost next: nat)
      requires Valid() && (phase == Open || phase == Error) && (start.phase == Open || start.phase == Error)
      requires |queue.Contents()| > 0 && done < |all| && queue.Contents() == all[done..]
      requires Current().(queue := []) == Put(start, all[..done]).(queue := [])
      modifies this`phase, this`lgfp, this`file, this`room, this`mode, queue, queue.Repr
      ensures Valid() && queue.Repr == old(queue.Repr) && (phase == Open || phase == Error)
      ensures done < next <= |all| && size == |queue.Contents()| == |all| - next
      ensures queue.Contents() == all[next..]
      ensures Current().(queue := []) == Put(start, all[..next]).(queue := [])
      decreases 0, 1
    {
      hide Chain.Valid, Chain.Chained, Join, Put;
      var piece := queue.Prefix();
      next := done + |piece|;
      assert all[done..next] == piece && all[..done] + piece == all[..next];
      PutsJoin(start, all[..done], piece);
      PutIgnoresQueue(Current(), piece);
      PutIgnoresQueue(Put(start, all[..done]), piece);
      PutSettles(start, all[..done]);
      LogWrite(piece);
      queue.Consume(|piece|);
      size := queue.Size();
    }
  }

  lemma PutIgnoresQueue(s: Log, data: seq<Byte>)
    requires s.phase != Opening
    ensures Put(s.(queue := []), data) == Put(s, data).(queue := [])
    ensures Put(s, data).queue == s.queue
    ensures s.phase == Open || s.phase == Error ==> Put(s, data).phase == Open || Put(s, data).phase == Error
  {
  }

  lemma PutSettles(s: Log, data: seq<Byte>)
    requires s.phase == Open || s.phase == Error
    ensures Put(s, data).phase == Open || Put(s, data).phase == Error
  {
  }
}
