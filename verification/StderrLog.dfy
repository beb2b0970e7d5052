/** Collecting the lines that a local proxy command writes to its standard error. */
module StderrLog {
  import opened Bytes
  import Conf
  import opened Bufchain

  const NEWLINE: Byte := 10

  /** Position of the first newline, or the length. */
  function FindNewline(s: seq<Byte>): (k: nat)
    ensures k <= |s| && (k < |s| ==> s[k] == NEWLINE)
  {
    if s == [] || s[0] == NEWLINE then 0 else 1 + FindNewline(s[1..])
  }

  /** The newline-terminated lines of a text. */
  function Lines(s: seq<Byte>): seq<seq<Byte>>
    decreases |s|
  {
    var k := FindNewline(s);
    if k == |s| then [] else [s[..k]] + Lines(s[k + 1..])
  }

  /** What comes after the last newline. */
  function Rest(s: seq<Byte>): (r: seq<Byte>)
    decreases |s|
  {
    var k := FindNewline(s);
    if k == |s| then s else Rest(s[k + 1..])
  }

  function Terminated(lines: seq<seq<Byte>>): seq<Byte> {
    if lines == [] then [] else lines[0] + [10] + Terminated(lines[1..])
  }

  /** The lines and the rest are the text cut at exactly its newlines. */
  lemma {:induction false} LinesAreTheText(s: seq<Byte>)
    ensures Terminated(Lines(s)) + Rest(s) == s
    ensures 10 !in Rest(s)
    ensures forall i :: 0 <= i < |Lines(s)| ==> 10 !in Lines(s)[i]
    decreases |s|
  {
    hide FindNewline;
    var k := FindNewline(s);
    NoNewlineBefore(s);
    if k == |s| {
      assert s[..k] == s;
    } else {
      LinesAreTheText(s[k + 1..]);
      var lines, rest := Lines(s[k + 1..]), Rest(s[k + 1..]);
      assert Lines(s)[1..] == lines;
      assert s == s[..k] + [NEWLINE] + s[k + 1..];
      ConcatAssoc(s[..k] + [NEWLINE], Terminated(lines), rest);
      assert Rest(s) == rest && Lines(s) == [s[..k]] + lines;
    }
  }

  lemma {:induction false} FindNewlineIs(s: seq<Byte>, k: nat)
    requires k <= |s| && NEWLINE !in s[..k]
    requires k < |s| ==> s[k] == NEWLINE
    ensures FindNewline(s) == k
  {
    if k > 0 {
      assert s[0] == s[..k][0];
      assert s[1..][..k - 1] == s[..k][1..];
      FindNewlineIs(s[1..], k - 1);
    }
  }

  lemma {:induction false} NoNewlineBefore(s: seq<Byte>)
    ensures NEWLINE !in s[..FindNewline(s)]
  {
    if s != [] && s[0] != NEWLINE {
      NoNewlineBefore(s[1..]);
      var k := FindNewline(s);
      assert s[..k] == [s[0]] + s[1..][..k - 1];
    }
  }

  /** Text that arrives in two parts: the rest of the first is completed by the second. */
  lemma {:induction false} LinesJoin(a: seq<Byte>, b: seq<Byte>)
    ensures Lines(a + b) == Lines(a) + Lines(Rest(a) + b)
    ensures Rest(a + b) == Rest(Rest(a) + b)
    decreases |a|
  {
    hide FindNewline;
    var k := FindNewline(a);
    if k < |a| {
      NoNewlineBefore(a);
      assert (a + b)[k + 1..] == a[k + 1..] + b;
      assert (a + b)[..k] == a[..k];
      FindNewlineIs(a + b, k);
      LinesJoin(a[k + 1..], b);
      ConcatAssoc([a[..k]], Lines(a[k + 1..]), Lines(Rest(a[k + 1..]) + b));
    }
  }

  /** A line as the message shows it: up to its first zero byte. */
  function Message(line: seq<Byte>): seq<Byte> {
    Ascii("proxy: ") + line[..Conf.FindZero(line)]
  }

  function Messages(lines: seq<seq<Byte>>): seq<seq<Byte>> {
    if lines == [] then [] else Messages(lines[..|lines| - 1]) + [Message(lines[|lines| - 1])]
  }

  lemma {:induction false} MessagesJoin(a: seq<seq<Byte>>, b: seq<seq<Byte>>)
    ensures Messages(a + b) == Messages(a) + Messages(b)
  {
    if b == [] {
      assert a + b == a;
    } else {
      assert (a + b)[..|a + b| - 1] == a + b[..|b| - 1];
      MessagesJoin(a, b[..|b| - 1]);
    }
  }

  /** A line without zero bytes is logged whole. */
  lemma CleanLineIsWhole(line: seq<Byte>)
    requires 0 !in line
    ensures Message(line) == Ascii("proxy: ") + line
  {
    Conf.ZeroEnds(line, []);
    assert line + [] == line && line[..|line|] == line;
  }

  /** Of any other line only what is before the first zero byte. */
  lemma LineEndsAtZero(a: seq<Byte>, b: seq<Byte>)
    requires 0 !in a
    ensures Message(a + [0] + b) == Ascii("proxy: ") + a
  {
    Conf.ZeroEnds(a, [0] + b);
    assert a + [0] + b == a + ([0] + b);
    assert (a + ([0] + b))[..|a|] == a;
  }

  /** Logs the lines that the data complete and keeps what is left over. */
  method LogProxyStderr(buf: Chain, data: seq<Byte>) returns (logged: seq<seq<Byte>>)
    requires buf.Valid()
    modifies buf, buf.Repr
    ensures buf.Valid() && fresh(buf.Repr - old(buf.Repr))
    ensures NEWLINE !in old(buf.Contents()) ==> logged == Messages(Lines(old(buf.Contents()) + data))
    ensures NEWLINE !in old(buf.Contents()) ==> buf.Contents() == Rest(old(buf.Contents()) + data)
  {
    hide Message, Lines, Rest, Chain.Valid, Chain.Chained, Join;
    logged := [];
    var pos: nat := 0;
    ghost var text := buf.Contents() + data;
    ghost var clean := NEWLINE !in buf.Contents();
    ghost var done: seq<seq<Byte>> := [];
    assert data[pos..] == data && done + Lines(text) == Lines(text);
    var nlpos := Memchr(data, pos);
    while nlpos < |data|
      invariant pos <= nlpos <= |data| && NEWLINE !in data[pos..nlpos] && (nlpos < |data| ==> data[nlpos] == NEWLINE)
      invariant buf.Valid() && fresh(buf.Repr - old(buf.Repr))
      invariant clean ==> Pending(text, done, logged, buf.Contents(), data[pos..])
      decreases |data| - pos
    {
      if clean {
        NextPending(text, done, logged, buf.Contents(), data, pos, nlpos);
      }
      ghost var line := buf.Contents() + data[pos..nlpos];
      var message := TakeLine(buf, data[pos..nlpos]);
      logged := logged + [message];
      done := done + [line];
      pos := nlpos + 1;
      nlpos := Memchr(data, pos);
    }
    assert data[pos..nlpos] == data[pos..];
    if clean {
      NonePending(text, done, logged, buf.Contents(), data[pos..]);
    }
    buf.Add(data[pos..]);
  }

  /** The lines so far are logged, and those still to come are in what is held and what is left. */
  ghost predicate Pending(text: seq<Byte>, done: seq<seq<Byte>>, logged: seq<seq<Byte>>, held: seq<Byte>,
                          left: seq<Byte>) {
    && NEWLINE !in held
    && logged == Messages(done)
    && Lines(text) == done + Lines(held + left)
    && Rest(text) == Rest(held + left)
  }

  lemma NextPending(text: seq<Byte>, done: seq<seq<Byte>>, logged: seq<seq<Byte>>, held: seq<Byte>, data: seq<Byte>,
                    pos: nat, nlpos: nat)
    requires pos <= nlpos < |data| && data[nlpos] == NEWLINE && NEWLINE !in data[pos..nlpos]
    requires Pending(text, done, logged, held, data[pos..])
    ensures var line := held + data[pos..nlpos];
      Pending(text, done + [line], logged + [Message(line)], [], data[nlpos + 1..])
  {
    hide Message, Lines, Rest;
    var line := held + data[pos..nlpos];
    NextLine(held, data, pos, nlpos);
    MessagesJoin(done, [line]);
    MessagesOfOne(line);
    assert [] + data[nlpos + 1..] == data[nlpos + 1..];
    ConcatAssoc(done, [line], Lines(data[nlpos + 1..]));
  }

  lemma NonePending(text: seq<Byte>, done: seq<seq<Byte>>, logged: seq<seq<Byte>>, held: seq<Byte>, left: seq<Byte>)
    requires Pending(text, done, logged, held, left) && NEWLINE !in left
    ensures logged == Messages(Lines(text)) && Rest(text) == held + left
  {
    hide Message, Lines, Rest;
    NoMoreLines(held, left);
    assert done + [] == done;
  }

  lemma MessagesOfOne(line: seq<Byte>)
    ensures Messages([line]) == [Message(line)]
  {
    assert [line][..0] == [];
  }

  /** The first newline of the data at or after `pos`, or the length. */
  method Memchr(data: seq<Byte>, pos: nat) returns (k: nat)
    requires pos <= |data|
    ensures pos <= k <= |data| && (k < |data| ==> data[k] == NEWLINE)
    ensures NEWLINE !in data[pos..k]
  {
    k := pos;
    while k < |data| && data[k] != NEWLINE
      invariant pos <= k <= |data| && NEWLINE !in data[pos..k]
    {
      k := k + 1;
    }
  }

  /** Completes the collected line, and takes it out as a message. */
  method TakeLine(buf: Chain, tail: seq<Byte>) returns (message: seq<Byte>)
    requires buf.Valid()
    modifies buf, buf.Repr
    ensures buf.Valid() && fresh(buf.Repr - old(buf.Repr)) && buf.Contents() == []
    ensures message == Message(old(buf.Contents()) + tail)
  {
    hide Message, Chain.Valid, Chain.Chained, Join;
    buf.Add(tail);
    ghost var line := buf.Contents();
    var msglen := buf.Size();
    var msg := buf.Fetch(msglen);
    assert line[..msglen] == line && line[msglen..] == [];
    buf.Consume(msglen);
    message := Message(msg);
  }

  lemma NextLine(held: seq<Byte>, data: seq<Byte>, pos: nat, nlpos: nat)
    requires pos <= nlpos < |data| && data[nlpos] == NEWLINE
    requires NEWLINE !in held && NEWLINE !in data[pos..nlpos]
    ensures Lines(held + data[pos..]) == [held + data[pos..nlpos]] + Lines(data[nlpos + 1..])
    ensures Rest(held + data[pos..]) == Rest(data[nlpos + 1..])
  {
    hide FindNewline;
    var s, k := held + data[pos..], |held| + (nlpos - pos);
    assert s[..k] == held + data[pos..nlpos];
    FindNewlineIs(s, k);
    assert s[k + 1..] == data[nlpos + 1..];
  }

  lemma NoMoreLines(held: seq<Byte>, tail: seq<Byte>)
    requires NEWLINE !in held && NEWLINE !in tail
    ensures Lines(held + tail) == [] && Rest(held + tail) == held + tail
  {
    var s := held + tail;
    assert s[..|s|] == s;
    FindNewlineIs(s, |s|);
  }

  // ------------------------------------------------------------------
  // However the data are cut up

  /** The messages and the remainder after one call per chunk. */
  function Collected(held: seq<Byte>, chunks: seq<seq<Byte>>): (r: (seq<seq<Byte>>, seq<Byte>)) {
    if chunks == [] then ([], held)
    else
      var before := Collected(held, chunks[..|chunks| - 1]);
      var text := before.1 + chunks[|chunks| - 1];
      (before.0 + Messages(Lines(text)), Rest(text))
  }

  /** Only the concatenation matters: its lines are logged, its unterminated rest is kept. */
  lemma {:induction false} ChunksDoNotMatter(chunks: seq<seq<Byte>>)
    ensures Collected([], chunks) == (Messages(Lines(Join(chunks))), Rest(Join(chunks)))
  {
    hide Message;
    if chunks == [] {
      assert Messages([]) == [];
    } else {
      var front, last := chunks[..|chunks| - 1], chunks[|chunks| - 1];
      ChunksDoNotMatter(front);
      LinesJoin(Join(front), last);
      MessagesJoin(Lines(Join(front)), Lines(Rest(Join(front)) + last));
    }
  }
}
