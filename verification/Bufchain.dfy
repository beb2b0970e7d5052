/**
 A byte queue kept as a chain of granules on the heap.

 Each granule has a buffer of its own and the limits of what is in use of it; bytes are added
 behind the last one in use and taken from the front.  The ghost fields name the granules in
 order and the bytes that each of them holds.
 */
module Bufchain {
  import opened Bytes

  const MIN_GRANULE: nat := 512

  /** Size of a granule's own fields, four pointers of 32 bits. */
  const HEADER: nat := 16

  class Granule {
    const data: array<Byte>
    var pos: nat
    var end: nat
    var next: Granule?

    constructor (capacity: nat)
      ensures fresh(data) && data.Length == capacity && pos == end == 0 && next == null
    {
      data := new Byte[capacity];
      pos, end, next := 0, 0, null;
    }
  }

  lemma LastGrows(pieces: seq<seq<Byte>>, more: seq<Byte>)
    requires pieces != []
    ensures Join(pieces[|pieces| - 1 := pieces[|pieces| - 1] + more]) == Join(pieces) + more
  {
    var last := |pieces| - 1;
    assert pieces[last := pieces[last] + more][..last] == pieces[..last];
    ConcatAssoc(Join(pieces[..last]), pieces[last], more);
  }

  lemma NewIsEmpty(pieces: seq<seq<Byte>>)
    ensures Join(pieces + [[]]) == Join(pieces)
  {
    assert (pieces + [[]])[..|pieces|] == pieces;
  }

  lemma JoinNonempty(pieces: seq<seq<Byte>>)
    requires Join(pieces) != []
    ensures pieces != []
  {
  }

  /** The granule after the `i`th. */
  function After(spine: seq<Granule>, i: nat): Granule?
    requires i < |spine|
  {
    var j := i + 1;
    if j < |spine| then spine[j] else null
  }

  ghost predicate Owned(spine: seq<Granule>, repr: set<object>) {
    forall i :: 0 <= i < |spine| ==> spine[i] in repr && spine[i].data in repr
  }

  ghost predicate Apart(spine: seq<Granule>) {
    forall i, j :: 0 <= i < j < |spine| ==> spine[i] != spine[j] && spine[i].data != spine[j].data
  }

  ghost predicate Linked(spine: seq<Granule>, repr: set<object>)
    requires Owned(spine, repr)
    reads repr
  {
    forall i {:trigger spine[i].next} :: 0 <= i < |spine| ==> spine[i].next == After(spine, i)
  }

  ghost predicate Holds(g: Granule, piece: seq<Byte>)
    reads g, g.data
  {
    g.pos <= g.end <= g.data.Length && piece == g.data[g.pos..g.end]
  }

  lemma HeldSlice(g: Granule, piece: seq<Byte>, n: nat)
    requires Holds(g, piece) && n <= |piece|
    ensures g.pos + n <= g.end && g.data[g.pos..g.pos + n] == piece[..n]
  {
    assert g.data[g.pos..g.end][..n] == g.data[g.pos..g.pos + n];
  }

  ghost predicate Filled(spine: seq<Granule>, pieces: seq<seq<Byte>>, repr: set<object>)
    requires Owned(spine, repr)
    reads repr
  {
    |spine| == |pieces| && forall i :: 0 <= i < |spine| ==> Holds(spine[i], pieces[i])
  }

  class Chain {
    var head: Granule?
    var tail: Granule?
    var buffersize: nat

    ghost var spine: seq<Granule>
    ghost var pieces: seq<seq<Byte>>
    ghost var Repr: set<object>

    /** The granules form a chain, share nothing, and `pieces` is what they hold. */
    ghost predicate Chained()
      reads this, Repr
    {
      && this !in Repr
      && Owned(spine, Repr)
      && Apart(spine)
      && Linked(spine, Repr)
      && Filled(spine, pieces, Repr)
      && head == (if spine == [] then null else spine[0])
      && tail == (if spine == [] then null else spine[|spine| - 1])
    }

    /** Between calls no granule is empty, and the size is that of the contents. */
    ghost predicate Valid()
      reads this, Repr
    {
      && Chained()
      && (forall i :: 0 <= i < |pieces| ==> pieces[i] != [])
      && buffersize == |Contents()|
    }

    ghost function Contents(): seq<Byte>
      reads this
    {
      Join(pieces)
    }

    constructor ()
      ensures Valid() && Contents() == [] && fresh(Repr)
    {
      head, tail, buffersize := null, null, 0;
      spine, pieces, Repr := [], [], {};
    }

    method Clear()
      requires Valid()
      modifies this
      ensures Valid() && Contents() == [] && Repr == old(Repr)
    {
      while head != null
        invariant Chained()
        invariant Repr == old(Repr)
        decreases |spine|
      {
        DropHead();
      }
      tail := null;
      buffersize := 0;
    }

    method Size() returns (size: nat)
      requires Valid()
      ensures size == |Contents()|
    {
      size := buffersize;
    }

    /** Unlinks the first granule. */
    method DropHead()
      requires Chained() && head != null
      modifies this`head, this`tail, this`spine, this`pieces
      ensures Chained() && pieces == old(pieces)[1..] && spine == old(spine)[1..]
    {
      ghost var rest := spine[1..];
      assert forall i :: 0 <= i < |rest| ==> After(rest, i) == After(spine, i + 1);
      head := head.next;
      if head == null {
        tail := null;
      }
      spine, pieces := rest, pieces[1..];
    }

    /** Copies into the last granule what it has room for. */
    method FillTail(data: seq<Byte>) returns (copied: nat)
      requires Chained() && tail != null
      modifies tail`end, tail.data, this`pieces
      ensures var room := tail.data.Length - old(tail.end); copied == if |data| <= room then |data| else room
      ensures Chained() && tail.end == old(tail.end) + copied
      ensures pieces == old(pieces)[|spine| - 1 := old(pieces)[|spine| - 1] + data[..copied]]
    {
      var room := tail.data.Length - tail.end;
      copied := if |data| <= room then |data| else room;
      ghost var last := |spine| - 1;
      var end := Append(tail.data, tail.end, data[..copied]);
      assert tail.data[..end][tail.pos..] == tail.data[tail.pos..end];
      assert tail.data[..tail.end] == old(tail.data[..tail.end]);
      tail.end := end;
      pieces := pieces[last := pieces[last] + data[..copied]];
      StretchGrows(old(tail.data[..]), tail.data[..], tail.pos, old(tail.end), end, data[..copied]);
    }

    /** Links a new granule with room for `len` bytes to the end. */
    method NewTail(len: nat)
      requires Chained() && len > 0
      modifies this`head, this`tail, this`spine, this`pieces, this`Repr, Repr
      ensures Chained() && fresh(Repr - old(Repr))
      ensures pieces == old(pieces) + [[]] && HasRoom()
    {
      hide Owned, Apart, Linked, Filled;
      var grainlen := if HEADER + len >= MIN_GRANULE then HEADER + len else MIN_GRANULE;
      var g := new Granule(grainlen - HEADER);
      Link(g);
    }

    method Link(g: Granule)
      requires Chained() && g !in Repr && g.data !in Repr && g.pos == g.end == 0 && g.next == null
      modifies this`head, this`tail, this`spine, this`pieces, this`Repr, Repr
      ensures Chained() && tail == g && Repr == old(Repr) + {g, g.data}
      ensures pieces == old(pieces) + [[]] && g.end == 0
    {
      if tail != null {
        tail.next := g;
      } else {
        head := g;
      }
      tail := g;
      spine, pieces, Repr := spine + [g], pieces + [[]], Repr + {g, g.data};
      assert Holds(g, []);
      hide Holds;
    }

    /** Appends the bytes. */
    method Add(data: seq<Byte>)
      requires Valid()
      modifies this, Repr
      ensures Valid() && fresh(Repr - old(Repr))
      ensures Contents() == old(Contents()) + data
    {
      if data == [] {
        assert Contents() == old(Contents()) + [];
        return;
      }
      hide Owned, Apart, Linked, Filled, Join;
      buffersize := buffersize + |data|;
      AddAll(data);
    }

    method AddAll(data: seq<Byte>)
      requires Chained() && data != []
      requires forall i :: 0 <= i < |pieces| ==> pieces[i] != []
      modifies this`head, this`tail, this`spine, this`pieces, this`Repr, Repr
      ensures Chained() && fresh(Repr - old(Repr))
      ensures Contents() == old(Contents()) + data
      ensures forall i :: 0 <= i < |pieces| ==> pieces[i] != []
    {
      hide Chained, HasRoom, Join;
      var done: nat := 0;
      while done < |data|
        invariant done <= |data| && Chained() && fresh(Repr - old(Repr))
        invariant Contents() == old(Contents()) + data[..done]
        invariant forall i :: 0 <= i < |pieces| ==> pieces[i] != [] || (i == |pieces| - 1 && done < |data| && HasRoom())
        decreases |data| - done, if HasRoom() then 0 else 1
      {
        ghost var was := done;
        done := AddSome(data, done);
        assert data[..was] + data[was..done] == data[..done];
      }
      assert data[..done] == data;
    }

    predicate HasRoom()
      reads this, tail
    {
      tail != null && tail.end < tail.data.Length
    }

    /** One round of appending: what fits into the last granule, then a new granule if more is left. */
    method AddSome(data: seq<Byte>, done: nat) returns (next: nat)
      requires Chained() && done < |data|
      requires forall i :: 0 <= i < |pieces| ==> pieces[i] != [] || (i == |pieces| - 1 && HasRoom())
      modifies this`head, this`tail, this`spine, this`pieces, this`Repr, Repr
      ensures done <= next <= |data| && Chained() && fresh(Repr - old(Repr))
      ensures Contents() == old(Contents()) + data[done..next]
      ensures forall i :: 0 <= i < |pieces| ==> pieces[i] != [] || (i == |pieces| - 1 && next < |data|)
      ensures next < |data| ==> HasRoom()
      ensures old(HasRoom()) ==> next > done
    {
      hide Owned, Apart, Linked, Filled, Holds, Join;
      next := done;
      EndsOwned();
      assert data[done..next] == [];
      if tail != null && tail.end < tail.data.Length {
        ghost var was := pieces;
        var copied := FillTail(data[done..]);
        next := done + copied;
        LastGrows(was, data[done..][..copied]);
        assert data[done..][..copied] == data[done..next];
      }
      if next < |data| {
        NewIsEmpty(pieces);
        NewTail(|data| - next);
      }
    }

    /** Drops the first `len` bytes. */
    method Consume(len: nat)
      requires Valid() && len <= |Contents()|
      modifies this, Repr
      ensures Valid() && Repr == old(Repr)
      ensures Contents() == old(Contents())[len..]
    {
      hide Owned, Apart, Linked, Filled;
      var left: nat := len;
      while left > 0
        invariant left <= len && left <= |Contents()| && Valid() && Repr == old(Repr)
        invariant Contents()[left..] == old(Contents())[len..]
      {
        left := ConsumeSome(left);
      }
    }

    /** Moves the start of the first granule on. */
    method Advance(n: nat)
      requires Chained() && head != null && n < head.end - head.pos
      modifies head`pos, this`pieces
      ensures Chained() && |pieces[0]| > 0 && old(|pieces[0]|) >= n
      ensures pieces == old(pieces)[0 := old(pieces)[0][n..]]
    {
      assert head.data[head.pos..head.end][n..] == head.data[head.pos + n..head.end];
      head.pos := head.pos + n;
      pieces := pieces[0 := pieces[0][n..]];
    }

    lemma EndsOwned()
      requires Chained()
      ensures |spine| == |pieces|
      ensures head != null <==> pieces != []
      ensures tail != null <==> pieces != []
      ensures head != null ==> head in Repr
      ensures tail != null ==> tail in Repr && tail.data in Repr
    {
    }

    lemma NodeIs(i: nat)
      requires Chained() && i < |pieces|
      ensures |spine| == |pieces| && Holds(spine[i], pieces[i]) && spine[i].next == After(spine, i)
    {
    }

    /** One round of dropping: the whole first granule, or a part of it. */
    method ConsumeSome(len: nat) returns (left: nat)
      requires Valid() && 0 < len <= |Contents()|
      modifies this`head, this`tail, this`spine, this`pieces, this`buffersize, Repr
      ensures Valid() && Repr == old(Repr) && left < len
      ensures left <= |Contents()| && Contents()[left..] == old(Contents())[len..]
    {
      hide Owned, Apart, Linked, Filled, Join;
      JoinNonempty(pieces);
      JoinHead(pieces);
      EndsOwned();
      NodeIs(0);
      ghost var first, rest := pieces[0], Join(pieces[1..]);
      var remlen := len;
      if remlen >= head.end - head.pos {
        remlen := head.end - head.pos;
        DropHead();
        assert (first + rest)[len..] == rest[len - remlen..];
      } else {
        Advance(remlen);
        JoinHead(pieces);
        assert pieces[1..] == old(pieces)[1..];
        assert (first + rest)[len..] == first[remlen..] + rest;
      }
      buffersize := buffersize - remlen;
      left := len - remlen;
    }

    /** A non-empty part of the queue that lies in one place, at its front. */
    method Prefix() returns (data: seq<Byte>)
      requires Valid() && |Contents()| > 0
      ensures data != [] && data <= Contents()
    {
      JoinHead(pieces);
      data := head.data[head.pos..head.end];
    }

    /** Copies the first `len` bytes out; the queue is as before. */
    method Fetch(len: nat) returns (data: seq<Byte>)
      requires Valid() && len <= |Contents()|
      ensures data == Contents()[..len]
    {
      hide Owned, Apart, Linked, Filled;
      data := [];
      var g := head;
      ghost var i := 0;
      assert pieces[0..] == pieces;
      EndsOwned();
      while |data| < len
        invariant i <= |spine| == |pieces| && g == (if i < |spine| then spine[i] else null)
        invariant |data| <= len && (|data| < len ==> data + Join(pieces[i..]) == Contents())
        invariant data == Contents()[..|data|]
        decreases len - |data|
      {
        MoreToFetch(pieces, i, data, Contents());
        NodeIs(i);
        var remlen := len - |data|;
        if remlen >= g.end - g.pos {
          remlen := g.end - g.pos;
        }
        FetchedMore(pieces, i, data, Contents(), remlen);
        HeldSlice(g, pieces[i], remlen);
        data := data + g.data[g.pos..g.pos + remlen];
        g := g.next;
        i := i + 1;
      }
    }
  }

  lemma MoreToFetch(pieces: seq<seq<Byte>>, i: nat, data: seq<Byte>, contents: seq<Byte>)
    requires i <= |pieces| && data + Join(pieces[i..]) == contents && |data| < |contents|
    ensures i < |pieces|
  {
    var rest := pieces[i..];
    assert Join(rest) != [];
  }

  lemma FetchedMore(pieces: seq<seq<Byte>>, i: nat, data: seq<Byte>, contents: seq<Byte>, n: nat)
    requires i < |pieces| && data + Join(pieces[i..]) == contents && n <= |pieces[i]|
    ensures |data| + n <= |contents| && data + pieces[i][..n] == contents[..|data| + n]
    ensures n == |pieces[i]| ==> data + pieces[i][..n] + Join(pieces[i + 1..]) == contents
  {
    JoinHead(pieces[i..]);
    assert pieces[i..][1..] == pieces[i + 1..];
    var rest := Join(pieces[i + 1..]);
    assert data + (pieces[i] + rest) == contents;
    if n == |pieces[i]| {
      assert pieces[i][..n] == pieces[i];
      ConcatAssoc(data, pieces[i], rest);
    }
  }

  /** Bytes written behind a stretch extend it. */
  lemma StretchGrows(was: seq<Byte>, now: seq<Byte>, pos: nat, end: nat, newEnd: nat, more: seq<Byte>)
    requires pos <= end <= newEnd <= |now| && |was| == |now| && newEnd == end + |more|
    requires now[..newEnd] == was[..end] + more
    ensures now[pos..newEnd] == was[pos..end] + more
  {
    assert now[pos..newEnd] == now[..newEnd][pos..];
    assert was[pos..end] == was[..end][pos..];
  }
}
