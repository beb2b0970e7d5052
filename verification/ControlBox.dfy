/** The box of control sets, kept in the order in which the panels are shown. */
module ControlBox {
  import opened Bytes
  import opened ControlPaths

  /** A set of controls on a panel, or the panel's title, which has no name. */
  datatype ControlSet = ControlSet(path: string, name: Option<string>, title: Option<string>)

  function Paths(sets: seq<ControlSet>): (ps: seq<seq<Element>>)
    ensures |ps| == |sets| && forall i :: 0 <= i < |sets| ==> ps[i] == Elements(sets[i].path)
  {
    seq(|sets|, i requires 0 <= i < |sets| => Elements(sets[i].path))
  }

  lemma PathsOfInsert(sets: seq<ControlSet>, m: nat, s: ControlSet)
    requires m <= |sets|
    ensures Paths(Insert(sets, m, s)) == Insert(Paths(sets), m, Elements(s.path))
  {
    hide Elements;
  }

  /** Where the path belongs, and that an insertion there keeps the subtrees together. */
  lemma InsertSetAtPlace(sets: seq<ControlSet>, s: ControlSet, m: nat)
    requires Grouped(Paths(sets)) && IsPlace(Paths(sets), Elements(s.path), m)
    ensures m <= |sets| && Grouped(Paths(Insert(sets, m, s)))
  {
    InsertAtPlace(Paths(sets), Elements(s.path), m);
    PathsOfInsert(sets, m, s);
  }

  /** Sets of one path follow each other. */
  lemma SamePathBetween(sets: seq<ControlSet>, i: nat, j: nat, k: nat)
    requires Grouped(Paths(sets)) && i <= j <= k < |sets| && sets[i].path == sets[k].path
    ensures sets[j].path == sets[i].path
  {
    hide Grouped;
    forall x | 0 <= x < |sets|
      ensures EndsOnce(Paths(sets)[x])
    {
      EndIsLast(Split(sets[x].path));
    }
    hide Elements;
    EqualsAreStretch(Paths(sets), i, j, k);
    ElementsInjective(sets[i].path, sets[j].path);
  }

  /** The place of a path that is there is its first set. */
  lemma PlaceOfPath(sets: seq<ControlSet>, path: string, m: nat, k: nat)
    requires Grouped(Paths(sets)) && IsPlace(Paths(sets), Elements(path), m) && k < |sets| && sets[k].path == path
    ensures m <= k && sets[m].path == path
  {
    PlaceIsFirst(Paths(sets), Elements(path), m, k);
    ElementsInjective(sets[m].path, path);
  }

  lemma NotBeforePlace(sets: seq<ControlSet>, path: string, m: nat, k: nat)
    requires IsPlace(Paths(sets), Elements(path), m) && k < m
    ensures sets[k].path != path
  {
    hide Elements;
  }

  class Box {
    var ctrlsets: array<ControlSet>
    var nctrlsets: nat

    ghost predicate Allocated()
      reads this
    {
      nctrlsets <= ctrlsets.Length
    }

    ghost function Sets(): (sets: seq<ControlSet>)
      requires Allocated()
      reads this, ctrlsets
      ensures |sets| == nctrlsets
    {
      ctrlsets[..nctrlsets]
    }

    /** Under every prefix of a path the sets are one stretch. */
    ghost predicate Valid()
      reads this, ctrlsets
    {
      Allocated() && Grouped(Paths(Sets()))
    }

    constructor ()
      ensures Valid() && Sets() == [] && fresh(ctrlsets)
    {
      ctrlsets := new ControlSet[0];
      nctrlsets := 0;
    }

    /** Index of the first set of the path, or of where it should be inserted. */
    method FindSet(path: string) returns (m: nat)
      requires Allocated()
      ensures IsPlace(Paths(Sets()), Elements(path), m)
    {
      hide Elements, Paths, Common;
      ghost var ps, p := Paths(Sets()), Elements(path);
      var last := 0;
      m := 0;
      while m < nctrlsets
        invariant m <= nctrlsets
        invariant last == if m == 0 then 0 else Common(p, ps[m - 1])
        invariant forall i :: 0 <= i < m ==> ps[i] != p
        invariant forall i, j :: 0 <= i <= j < m ==> Common(p, ps[i]) <= Common(p, ps[j])
      {
        var thisone := PathCompare(path, ctrlsets[m].path);
        ElementsInjective(path, ctrlsets[m].path);
        assert ps[m] == Elements(ctrlsets[m].path);
        if thisone == Exact || thisone.n < last {
          return;
        }
        last := thisone.n;
        m := m + 1;
      }
    }

    /** Moves the later sets up and puts a new one in. */
    method Put(index: nat, s: ControlSet)
      requires Allocated() && index <= nctrlsets
      modifies this, ctrlsets
      ensures Allocated() && (ctrlsets == old(ctrlsets) || fresh(ctrlsets))
      ensures Sets() == Insert(old(Sets()), index, s)
    {
      ghost var was := Sets();
      if nctrlsets >= ctrlsets.Length {
        Grow();
      }
      forall i | index < i <= nctrlsets {
        ctrlsets[i] := ctrlsets[i - 1];
      }
      ctrlsets[index] := s;
      nctrlsets := nctrlsets + 1;
      forall i | 0 <= i < nctrlsets
        ensures ctrlsets[i] == Insert(was, index, s)[i]
      {
        InsertedAt(was, index, s, i);
      }
    }

    method Grow()
      requires Allocated()
      modifies this`ctrlsets
      ensures fresh(ctrlsets) && ctrlsets.Length == nctrlsets + 32 && ctrlsets[..nctrlsets] == old(Sets())
    {
      var larger := new ControlSet[nctrlsets + 32];
      forall i | 0 <= i < nctrlsets {
        larger[i] := ctrlsets[i];
      }
      ctrlsets := larger;
    }

    /** Adds the title of a panel, before what is on the panel already. */
    method SetTitle(path: string, title: string) returns (index: nat)
      requires Valid()
      modifies this, ctrlsets
      ensures Valid() && (ctrlsets == old(ctrlsets) || fresh(ctrlsets))
      ensures IsPlace(Paths(old(Sets())), Elements(path), index)
      ensures Sets() == Insert(old(Sets()), index, ControlSet(path, None, Some(title)))
    {
      hide Grouped, Elements, IsPlace, Paths;
      index := FindSet(path);
      InsertSetAtPlace(Sets(), ControlSet(path, None, Some(title)), index);
      Put(index, ControlSet(path, None, Some(title)));
    }

    /** The set of that name on the panel; if there is none it is added after what the panel has. */
    method GetSet(path: string, name: string, boxtitle: Option<string>) returns (index: nat)
      requires Valid()
      modifies this, ctrlsets
      ensures Valid() && (ctrlsets == old(ctrlsets) || fresh(ctrlsets))
      ensures index < nctrlsets && Sets()[index].path == path && Sets()[index].name == Some(name)
      ensures Named(old(Sets()), path, name) ==> Sets() == old(Sets())
      ensures !Named(old(Sets()), path, name) ==>
        && EndsRun(old(Sets()), path, index)
        && Sets() == Insert(old(Sets()), index, ControlSet(path, Some(name), boxtitle))
    {
      hide Grouped, Elements, IsPlace, Paths;
      ghost var sets := Sets();
      var start := FindSet(path);
      PlaceIsInside(sets, path, start);
      index := start;
      while index < nctrlsets && ctrlsets[index].path == path
        invariant start <= index <= nctrlsets
        invariant forall i :: start <= i < index ==> sets[i].path == path && sets[i].name != Some(name)
      {
        if ctrlsets[index].name == Some(name) {
          assert sets[index].path == path;
          return;
        }
        index := index + 1;
      }
      NotNamed(sets, path, name, start, index);
      RunEnds(sets, path, start, index);
      InsertAfterRun(sets, ControlSet(path, Some(name), boxtitle), start, index);
      Put(index, ControlSet(path, Some(name), boxtitle));
      InsertedAt(sets, index, ControlSet(path, Some(name), boxtitle), index);
    }

    /** The next set of the path after `index`, or the first one, or -1. */
    method FindPath(path: string, index: int) returns (next: int)
      requires Valid() && index < nctrlsets
      ensures -1 <= next < nctrlsets
      ensures next >= 0 ==> Sets()[next].path == path
      ensures index < 0 && next >= 0 ==> forall i :: 0 <= i < next ==> Sets()[i].path != path
      ensures index < 0 && next < 0 ==> forall i :: 0 <= i < nctrlsets ==> Sets()[i].path != path
      ensures index >= 0 && next >= 0 ==> next == index + 1
      ensures index >= 0 && next < 0 && Sets()[index].path == path ==>
        forall i :: index < i < nctrlsets ==> Sets()[i].path != path
    {
      hide Grouped, Elements, IsPlace, Paths;
      ghost var sets := Sets();
      if index < 0 {
        next := FindSet(path);
        NoneBefore(sets, path, next);
      } else {
        next := index + 1;
        NoneLater(sets, path, index);
      }
      if next >= nctrlsets || path != ctrlsets[next].path {
        next := -1;
      }
    }

    /** The loop over a panel: every set of the path once, in order. */
    method VisitPanel(path: string) returns (visited: seq<nat>)
      requires Valid()
      ensures forall i :: 0 <= i < nctrlsets ==> (i in visited <==> Sets()[i].path == path)
      ensures forall i, j :: 0 <= i < j < |visited| ==> visited[i] < visited[j]
      ensures forall i :: i in visited ==> i < nctrlsets
    {
      hide Grouped, Paths;
      visited := [];
      var index := FindPath(path, -1);
      while index >= 0
        invariant -1 <= index < nctrlsets
        invariant index >= 0 ==> Sets()[index].path == path
        invariant forall i :: 0 <= i < |visited| ==> visited[i] < nctrlsets && (index >= 0 ==> visited[i] < index)
        invariant forall i :: 0 <= i < (if index >= 0 then index else nctrlsets) ==>
          (i in visited <==> Sets()[i].path == path)
        invariant forall i, j :: 0 <= i < j < |visited| ==> visited[i] < visited[j]
        decreases if index >= 0 then nctrlsets - index else 0
      {
        visited := visited + [index];
        index := FindPath(path, index);
      }
    }
  }

  /** Right behind the sets of the path, or where the path belongs if there are none. */
  ghost predicate EndsRun(sets: seq<ControlSet>, path: string, index: nat) {
    && index <= |sets|
    && (forall k :: index <= k < |sets| ==> sets[k].path != path)
    && if exists k :: 0 <= k < |sets| && sets[k].path == path
       then index > 0 && sets[index - 1].path == path
       else IsPlace(Paths(sets), Elements(path), index)
  }

  lemma RunEnds(sets: seq<ControlSet>, path: string, start: nat, index: nat)
    requires Grouped(Paths(sets)) && IsPlace(Paths(sets), Elements(path), start) && start <= index <= |sets|
    requires forall i :: start <= i < index ==> sets[i].path == path
    requires index < |sets| ==> sets[index].path != path
    ensures EndsRun(sets, path, index)
  {
    hide Grouped, Paths, IsPlace, Elements;
    forall k | index <= k < |sets|
      ensures sets[k].path != path
    {
      if sets[k].path == path {
        PlaceOfPath(sets, path, start, k);
        SamePathBetween(sets, start, index, k);
      }
    }
    assert start < index ==> sets[start].path == path && sets[index - 1].path == path;
    if k :| 0 <= k < |sets| && sets[k].path == path {
      PlaceOfPath(sets, path, start, k);
    }
  }

  /** A set of that path and name is there. */
  predicate Named(sets: seq<ControlSet>, path: string, name: string) {
    exists i :: 0 <= i < |sets| && sets[i].path == path && sets[i].name == Some(name)
  }

  lemma PlaceIsInside(sets: seq<ControlSet>, path: string, m: nat)
    requires IsPlace(Paths(sets), Elements(path), m)
    ensures m <= |sets|
  {
  }

  lemma NoneBefore(sets: seq<ControlSet>, path: string, m: nat)
    requires Grouped(Paths(sets)) && IsPlace(Paths(sets), Elements(path), m)
    ensures m <= |sets| && forall k :: 0 <= k < m ==> sets[k].path != path
    ensures m == |sets| || sets[m].path != path ==> forall k :: 0 <= k < |sets| ==> sets[k].path != path
  {
    forall k | 0 <= k < |sets|
      ensures k < m || m == |sets| || sets[m].path != path ==> sets[k].path != path
    {
      if k < m {
        NotBeforePlace(sets, path, m, k);
      } else if sets[k].path == path {
        PlaceOfPath(sets, path, m, k);
      }
    }
  }

  lemma NoneLater(sets: seq<ControlSet>, path: string, index: nat)
    requires Grouped(Paths(sets)) && index < |sets|
    ensures var next := index + 1;
      sets[index].path == path && (next == |sets| || sets[next].path != path) ==>
        forall i :: index < i < |sets| ==> sets[i].path != path
  {
    hide Grouped, Paths;
    var next := index + 1;
    if sets[index].path == path && (next == |sets| || sets[next].path != path) {
      forall i | index < i < |sets|
        ensures sets[i].path != path
      {
        if sets[i].path == path {
          SamePathBetween(sets, index, next, i);
        }
      }
    }
  }

  lemma NotNamed(sets: seq<ControlSet>, path: string, name: string, start: nat, end: nat)
    requires Grouped(Paths(sets)) && IsPlace(Paths(sets), Elements(path), start) && start <= end <= |sets|
    requires forall i :: start <= i < end ==> sets[i].path == path && sets[i].name != Some(name)
    requires end < |sets| ==> sets[end].path != path
    ensures !Named(sets, path, name)
  {
    hide Grouped, Paths, IsPlace;
    forall i | 0 <= i < |sets| && sets[i].path == path
      ensures sets[i].name != Some(name)
    {
      PlaceOfPath(sets, path, start, i);
      if i >= end {
        SamePathBetween(sets, start, end, i);
      }
    }
  }

  /** The end of the run of a path is as good a place as its start. */
  lemma InsertAfterRun(sets: seq<ControlSet>, s: ControlSet, start: nat, end: nat)
    requires Grouped(Paths(sets)) && IsPlace(Paths(sets), Elements(s.path), start) && start <= end <= |sets|
    requires forall i :: start <= i < end ==> sets[i].path == s.path
    ensures Grouped(Paths(Insert(sets, end, s)))
  {
    if start == end {
      InsertSetAtPlace(sets, s, start);
    } else {
      var e: nat := end - 1;
      assert sets[e].path == s.path;
      InsertBesideEqual(Paths(sets), Elements(s.path), end, e);
      PathsOfInsert(sets, end, s);
    }
  }
}
