/** Panel paths, how many leading elements two of them share, and lists in which every subtree is one stretch. */
module ControlPaths {
  /** An element of a path, or the mark after the last one. */
  datatype Element = Name(s: string) | End

  /** The parts between the slashes. */
  function Split(path: string): (parts: seq<string>)
    ensures |parts| > 0
  {
    if path == "" then [""]
    else if path[0] == '/' then [""] + Split(path[1..])
    else
      var rest := Split(path[1..]);
      [[path[0]] + rest[0]] + rest[1..]
  }

  function Joined(parts: seq<string>): string
    requires |parts| > 0
  {
    if |parts| == 1 then parts[0] else parts[0] + "/" + Joined(parts[1..])
  }

  lemma {:induction false} SplitJoined(path: string)
    ensures Joined(Split(path)) == path
  {
    if path != "" {
      var rest := Split(path[1..]);
      SplitJoined(path[1..]);
      if path[0] == '/' {
        assert Split(path)[1..] == rest;
        assert "" + "/" + path[1..] == path;
      } else if |rest| == 1 {
        assert path == [path[0]] + path[1..];
      } else {
        assert Split(path)[1..] == rest[1..];
        assert path == [path[0]] + path[1..];
      }
    }
  }

  /** A path as its elements and the mark after them. */
  function Marked(parts: seq<string>): seq<Element> {
    if parts == [] then [End] else [Name(parts[0])] + Marked(parts[1..])
  }

  function Elements(path: string): (es: seq<Element>)
  {
    Marked(Split(path))
  }

  lemma {:induction false} MarkedInjective(a: seq<string>, b: seq<string>)
    requires Marked(a) == Marked(b)
    ensures a == b
  {
    if a == [] || b == [] {
      assert Marked([])[0] == End;
    } else {
      assert Marked(a)[1..] == Marked(a[1..]) && Marked(b)[1..] == Marked(b[1..]);
      assert Marked(a)[0] == Name(a[0]) && Marked(b)[0] == Name(b[0]);
      MarkedInjective(a[1..], b[1..]);
    }
  }

  /** Paths are equal exactly if their elements are. */
  lemma ElementsInjective(a: string, b: string)
    ensures Elements(a) == Elements(b) <==> a == b
  {
    if Elements(a) == Elements(b) {
      MarkedInjective(Split(a), Split(b));
      SplitJoined(a);
      SplitJoined(b);
    }
  }

  /** How many leading elements agree. */
  function Common(a: seq<Element>, b: seq<Element>): (n: nat)
    ensures n <= |a| && n <= |b|
  {
    if a == [] || b == [] || a[0] != b[0] then 0 else 1 + Common(a[1..], b[1..])
  }

  lemma {:induction false} CommonSymmetric(a: seq<Element>, b: seq<Element>)
    ensures Common(a, b) == Common(b, a)
  {
    if a != [] && b != [] && a[0] == b[0] {
      CommonSymmetric(a[1..], b[1..]);
    }
  }

  lemma {:induction false} CommonOfEqual(a: seq<Element>)
    ensures Common(a, a) == |a|
  {
    if a != [] {
      CommonOfEqual(a[1..]);
    }
  }

  /** What `a` shares with `b` and `b` with `c`, `a` shares with `c`. */
  lemma {:induction false} CommonUltrametric(a: seq<Element>, b: seq<Element>, c: seq<Element>)
    ensures Common(a, c) >= (if Common(a, b) <= Common(b, c) then Common(a, b) else Common(b, c))
  {
    if a != [] && b != [] && c != [] && a[0] == b[0] == c[0] {
      CommonUltrametric(a[1..], b[1..], c[1..]);
    }
  }

  lemma {:induction false} CommonIsPrefix(a: seq<Element>, b: seq<Element>, n: nat)
    requires n <= |a|
    ensures n <= Common(a, b) <==> a[..n] <= b
  {
    if n > 0 && b != [] && a[0] == b[0] {
      CommonIsPrefix(a[1..], b[1..], n - 1);
      assert a[..n] == [a[0]] + a[1..][..n - 1];
      assert b == [b[0]] + b[1..];
    }
  }

  // ------------------------------------------------------------------
  // Comparing two paths character by character

  /** At the end of an element. */
  predicate AtEnd(p: string) {
    p == "" || p[0] == '/'
  }

  /** Elements that match before the first difference. */
  function Matching(p1: string, p2: string): nat {
    (if AtEnd(p1) && AtEnd(p2) then 1 else 0)
    + (if p1 != "" && p2 != "" && p1[0] == p2[0] then Matching(p1[1..], p2[1..]) else 0)
  }

  lemma ElementsOfSlash(p: string)
    requires p != "" && p[0] == '/'
    ensures Elements(p) == [Name("")] + Elements(p[1..])
  {
    assert Split(p)[1..] == Split(p[1..]);
  }

  lemma ElementsOfChar(p: string)
    requires p != "" && p[0] != '/'
    ensures |Elements(p)| == |Elements(p[1..])| > 0 && Elements(p[1..])[0].Name?
    ensures Elements(p)[0] == Name([p[0]] + Elements(p[1..])[0].s) && Elements(p)[1..] == Elements(p[1..])[1..]
  {
    var rest := Split(p[1..]);
    assert Split(p)[0] == [p[0]] + rest[0] && Split(p)[1..] == rest[1..];
    assert Marked(Split(p))[1..] == Marked(rest[1..]) && Marked(rest)[1..] == Marked(rest[1..]);
  }

  lemma FirstElement(p: string)
    ensures |Elements(p)| > 0 && Elements(p)[0].Name?
    ensures AtEnd(p) <==> Elements(p)[0] == Name("")
    ensures !AtEnd(p) ==> Elements(p)[0].s != "" && Elements(p)[0].s[0] == p[0]
    ensures p == "" ==> Elements(p) == [Name(""), End]
  {
    if p != "" && p[0] != '/' {
      ElementsOfChar(p);
    }
  }

  /** Comparing the characters counts the common elements of different paths. */
  lemma {:induction false} MatchingIsCommon(p1: string, p2: string)
    requires p1 != p2
    ensures Matching(p1, p2) == Common(Elements(p1), Elements(p2))
  {
    hide Elements;
    FirstElement(p1);
    FirstElement(p2);
    if p1 != "" && p2 != "" && p1[0] == p2[0] {
      assert p1 == [p1[0]] + p1[1..] && p2 == [p2[0]] + p2[1..];
      MatchingIsCommon(p1[1..], p2[1..]);
      if p1[0] == '/' {
        ElementsOfSlash(p1);
        ElementsOfSlash(p2);
        CommonCons(Name(""), Elements(p1[1..]), Elements(p2[1..]));
      } else {
        ElementsOfChar(p1);
        ElementsOfChar(p2);
        assert ([p1[0]] + Elements(p1[1..])[0].s)[1..] == Elements(p1[1..])[0].s;
        assert ([p2[0]] + Elements(p2[1..])[0].s)[1..] == Elements(p2[1..])[0].s;
      }
    } else if AtEnd(p1) && AtEnd(p2) {
      EndsDiffer(p1, p2);
    }
  }

  lemma CommonCons(e: Element, a: seq<Element>, b: seq<Element>)
    ensures Common([e] + a, [e] + b) == 1 + Common(a, b)
  {
    assert ([e] + a)[1..] == a && ([e] + b)[1..] == b;
  }

  lemma EndsDiffer(p1: string, p2: string)
    requires AtEnd(p1) && AtEnd(p2) && p1 != p2 && (p1 == "" || p2 == "")
    ensures Common(Elements(p1), Elements(p2)) == 1
  {
    hide Elements;
    FirstElement(p1);
    FirstElement(p2);
    var p := if p1 == "" then p2 else p1;
    ElementsOfSlash(p);
    FirstElement(p[1..]);
    assert [Name(""), End] == [Name("")] + [End];
    CommonCons(Name(""), [End], Elements(p[1..]));
    CommonCons(Name(""), Elements(p[1..]), [End]);
  }

  /** The result of a comparison: how many elements match, or that the paths are identical. */
  datatype Match = Exact | Leading(n: nat)

  method PathCompare(p1: string, p2: string) returns (m: Match)
    ensures m == Exact <==> p1 == p2
    ensures m.Leading? ==> m.n == Common(Elements(p1), Elements(p2))
  {
    var i, k: nat := 0, 0;
    while k < |p1| || k < |p2|
      invariant k <= |p1| && k <= |p2| && p1[..k] == p2[..k]
      invariant i + Matching(p1[k..], p2[k..]) == Matching(p1, p2)
      decreases |p1| - k
    {
      ghost var r1, r2 := p1[k..], p2[k..];
      if (k == |p1| || p1[k] == '/') && (k == |p2| || p2[k] == '/') {
        i := i + 1;
      }
      if k == |p1| || k == |p2| || p1[k] != p2[k] {
        MatchingIsCommon(p1, p2);
        return Leading(i);
      }
      assert r1[1..] == p1[k + 1..] && r2[1..] == p2[k + 1..];
      k := k + 1;
    }
    assert p1[..k] == p1 && p2[..k] == p2;
    return Exact;
  }

  // ------------------------------------------------------------------
  // Lists in which every subtree is one stretch

  /** What entry `i` shares with a later entry `k`, it shares with `j` in between. */
  predicate SharedBetween(s: seq<seq<Element>>, i: nat, j: nat, k: nat) {
    i <= j <= k < |s| ==> Common(s[i], s[k]) <= Common(s[i], s[j])
  }

  ghost predicate Grouped(s: seq<seq<Element>>) {
    forall i: nat, j: nat, k: nat :: SharedBetween(s, i, j, k)
  }

  /** The entries under any prefix are one stretch. */
  lemma SubtreeIsStretch(s: seq<seq<Element>>, prefix: seq<Element>, i: nat, j: nat, k: nat)
    requires Grouped(s) && i <= j <= k < |s| && prefix <= s[i] && prefix <= s[k]
    ensures prefix <= s[j]
  {
    var n := |prefix|;
    assert SharedBetween(s, i, j, k);
    assert s[i][..n] == prefix;
    CommonIsPrefix(s[i], s[k], n);
    CommonIsPrefix(s[i], s[j], n);
  }

  predicate EndsOnce(es: seq<Element>) {
    es != [] && es[|es| - 1] == End && forall i :: 0 <= i < |es| - 1 ==> es[i] != End
  }

  /** Equal paths are adjacent. */
  lemma EqualsAreStretch(s: seq<seq<Element>>, i: nat, j: nat, k: nat)
    requires Grouped(s) && i <= j <= k < |s| && s[i] == s[k]
    requires forall x :: 0 <= x < |s| ==> EndsOnce(s[x])
    ensures s[j] == s[i]
  {
    SubtreeIsStretch(s, s[i], i, j, k);
    var last := |s[i]| - 1;
    assert s[j][last] == s[i][last] == End;
  }

  lemma {:induction false} EndIsLast(parts: seq<string>)
    ensures EndsOnce(Marked(parts))
  {
    if parts != [] {
      EndIsLast(parts[1..]);
    }
  }

  // ------------------------------------------------------------------
  // Where a path goes in

  /** The first place that holds the path, or where fewer elements match than at the place before. */
  ghost predicate IsPlace(s: seq<seq<Element>>, p: seq<Element>, m: nat) {
    && m <= |s|
    && (forall i :: 0 <= i < m ==> s[i] != p)
    && (forall i, j :: 0 <= i <= j < m ==> Common(p, s[i]) <= Common(p, s[j]))
    && (m < |s| ==> s[m] == p || (m > 0 && Common(p, s[m]) < Common(p, s[m - 1])))
  }

  /** After the first drop nothing matches as well as before it. */
  lemma DropIsFinal(s: seq<seq<Element>>, p: seq<Element>, m: nat, k: nat)
    requires Grouped(s) && 0 < m <= k < |s| && Common(p, s[m]) < Common(p, s[m - 1])
    ensures Common(p, s[k]) < Common(p, s[m - 1])
  {
    var nb := s[m - 1];
    CommonUltrametric(nb, p, s[k]);
    CommonUltrametric(p, nb, s[m]);
    CommonSymmetric(p, nb);
    var l := m - 1;
    assert SharedBetween(s, l, m, k);
  }

  /** If the list has the path at all, the place is where it is first. */
  lemma PlaceIsFirst(s: seq<seq<Element>>, p: seq<Element>, m: nat, k: nat)
    requires Grouped(s) && IsPlace(s, p, m) && k < |s| && s[k] == p
    ensures m < |s| && m <= k && s[m] == p
  {
    CommonOfEqual(p);
    if s[m] != p {
      DropIsFinal(s, p, m, k);
    }
  }

  function Insert<T>(s: seq<T>, m: nat, x: T): (t: seq<T>)
    requires m <= |s|
    ensures |t| == |s| + 1
  {
    s[..m] + [x] + s[m..]
  }

  /** Everything before the place matches no better than the last before it, everything after it worse. */
  ghost predicate Peak(s: seq<seq<Element>>, p: seq<Element>, m: nat) {
    && 0 < m <= |s|
    && (forall i :: 0 <= i < m ==> Common(p, s[i]) <= Common(p, s[m - 1]))
    && (forall k :: m <= k < |s| ==> Common(p, s[k]) < Common(p, s[m - 1]))
  }

  lemma BetweenAtPeak(s: seq<seq<Element>>, p: seq<Element>, m: nat, i: nat, k: nat)
    requires Grouped(s) && Peak(s, p, m) && i < m <= k < |s|
    ensures Common(s[i], s[k]) <= Common(s[i], p)
  {
    var l: nat := m - 1;
    var nb := s[l];
    assert SharedBetween(s, i, l, k);
    CommonUltrametric(s[i], nb, p);
    CommonUltrametric(nb, s[i], s[k]);
    CommonUltrametric(p, nb, s[k]);
    CommonSymmetric(nb, s[i]);
    CommonSymmetric(nb, p);
  }

  lemma BeforeAtPeak(s: seq<seq<Element>>, p: seq<Element>, m: nat, j: nat, k: nat)
    requires Grouped(s) && Peak(s, p, m) && m <= j <= k < |s|
    ensures Common(p, s[k]) <= Common(p, s[j])
  {
    var l: nat := m - 1;
    var nb := s[l];
    assert SharedBetween(s, l, j, k);
    CommonUltrametric(nb, p, s[k]);
    CommonUltrametric(p, nb, s[j]);
    CommonSymmetric(nb, p);
  }

  lemma AfterAtPeak(s: seq<seq<Element>>, p: seq<Element>, m: nat, i: nat, j: nat)
    requires Grouped(s) && Peak(s, p, m) && i <= j < m <= |s|
    ensures Common(s[i], p) <= Common(s[i], s[j])
  {
    var l: nat := m - 1;
    var nb := s[l];
    assert SharedBetween(s, i, j, l);
    CommonSymmetric(p, s[i]);
    CommonUltrametric(s[i], p, nb);
  }

  /** Put in at the peak, the list stays grouped. */
  lemma InsertAtPeak(s: seq<seq<Element>>, p: seq<Element>, m: nat)
    requires Grouped(s) && Peak(s, p, m)
    ensures Grouped(Insert(s, m, p))
  {
    hide Peak, Insert;
    PeakIsInside(s, p, m);
    var t := Insert(s, m, p);
    forall i: nat, j: nat, k: nat
      ensures SharedBetween(t, i, j, k)
    {
      if i <= j <= k < |t| {
        SharedAtPeak(s, p, m, i, j, k);
      }
    }
  }

  lemma SharedAtPeak(s: seq<seq<Element>>, p: seq<Element>, m: nat, i: nat, j: nat, k: nat)
    requires Grouped(s) && Peak(s, p, m) && i <= j <= k <= |s|
    ensures 0 < m <= |s| && SharedBetween(Insert(s, m, p), i, j, k)
  {
    hide Peak, Insert, Grouped;
    PeakIsInside(s, p, m);
    InsertedAt(s, m, p, i);
    InsertedAt(s, m, p, j);
    InsertedAt(s, m, p, k);
    CommonOfEqual(Insert(s, m, p)[i]);
    if i < m && j == m && k > m {
      BetweenAtPeak(s, p, m, i, k - 1);
    } else if i == m && j > m {
      BeforeAtPeak(s, p, m, j - 1, k - 1);
    } else if j < m && k == m {
      AfterAtPeak(s, p, m, i, j);
    } else if j != m && i != m && k != m {
      SharedOf(s, if i < m then i else i - 1, if j < m then j else j - 1, if k < m then k else k - 1);
    }
  }

  lemma SharedOf(s: seq<seq<Element>>, i: nat, j: nat, k: nat)
    requires Grouped(s)
    ensures SharedBetween(s, i, j, k)
  {
  }

  lemma PeakIsInside(s: seq<seq<Element>>, p: seq<Element>, m: nat)
    requires Peak(s, p, m)
    ensures 0 < m <= |s|
  {
  }

  lemma InsertedAt<T>(s: seq<T>, m: nat, x: T, i: nat)
    requires m <= |s| && i <= |s|
    ensures Insert(s, m, x)[i] == if i < m then s[i] else if i == m then x else s[i - 1]
  {
  }

  /** Put in beside an equal path, the list stays grouped. */
  lemma InsertBesideEqual(s: seq<seq<Element>>, p: seq<Element>, m: nat, e: nat)
    requires Grouped(s) && m <= |s| && e < |s| && s[e] == p && (e == m || e + 1 == m)
    ensures Grouped(Insert(s, m, p))
  {
    forall i: nat, j: nat, k: nat
      ensures SharedBetween(Insert(s, m, p), i, j, k)
    {
      if i <= j <= k <= |s| {
        SharedBesideEqual(s, p, m, e, i, j, k);
      }
    }
  }

  lemma SharedBesideEqual(s: seq<seq<Element>>, p: seq<Element>, m: nat, e: nat, i: nat, j: nat, k: nat)
    requires Grouped(s) && m <= |s| && e < |s| && s[e] == p && (e == m || e + 1 == m) && i <= j <= k <= |s|
    ensures SharedBetween(Insert(s, m, p), i, j, k)
  {
    hide Insert, Grouped, Common;
    InsertedAt(s, m, p, i);
    InsertedAt(s, m, p, j);
    InsertedAt(s, m, p, k);
    SharedOf(s, if i < m then i else if i == m then e else i - 1,
                if j < m then j else if j == m then e else j - 1,
                if k < m then k else if k == m then e else k - 1);
  }

  /** Put in at its place, the list stays grouped. */
  lemma InsertAtPlace(s: seq<seq<Element>>, p: seq<Element>, m: nat)
    requires Grouped(s) && IsPlace(s, p, m)
    ensures Grouped(Insert(s, m, p))
  {
    if m < |s| && s[m] == p {
      InsertBesideEqual(s, p, m, m);
    } else if s == [] {
      assert Insert(s, m, p) == [p];
      CommonOfEqual(p);
    } else {
      hide Grouped, Insert, Common;
      if m < |s| {
        forall k | m <= k < |s|
          ensures Common(p, s[k]) < Common(p, s[m - 1])
        {
          DropIsFinal(s, p, m, k);
        }
      }
      assert forall i :: 0 <= i < m ==> Common(p, s[i]) <= Common(p, s[m - 1]);
      InsertAtPeak(s, p, m);
    }
  }
}
