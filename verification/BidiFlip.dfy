/** Reordering. */
module BidiFlip {
  import opened Bytes
  import opened BidiChars

  // Reordering by levels (rule L2 of UAX #9, section 3.4).
  //
  // The terminal reverses, for each level from the highest down to 1, the stretch of
  // every run that begins at the first character of exactly that level.  The rule asks
  // for the reversal of the whole run of characters at that level or higher.  Both are
  // described here by the position each output cell is copied from, which makes them
  // comparable: they agree on every line if and only if `Balanced` holds of the levels.

  /** Left end of the maximal run of levels `>= k` around `i`. */
  function Start(lv: seq<int>, k: int, i: nat): (a: nat)
    requires i < |lv| && lv[i] >= k
    ensures a <= i
  {
    if i > 0 && lv[i - 1] >= k then Start(lv, k, i - 1) else i
  }

  /** First position at or after `i` whose level is below `k`, or the end of the line. */
  function End(lv: seq<int>, k: int, i: nat): (e: nat)
    requires i <= |lv|
    ensures i <= e <= |lv|
    decreases |lv| - i
  {
    if i < |lv| && lv[i] >= k then End(lv, k, i + 1) else i
  }

  /** First position in `[i, e)` whose level is exactly `k`, or `e`. */
  function FirstAt(lv: seq<int>, k: int, i: nat, e: nat): (p: nat)
    requires i <= e <= |lv|
    ensures i <= p <= e
    decreases e - i
  {
    if i < e && lv[i] != k then FirstAt(lv, k, i + 1, e) else i
  }

  /** `[a, e)` is a maximal run of levels `>= k`. */
  predicate MaximalRun(lv: seq<int>, k: int, a: nat, e: nat) {
    && a < e <= |lv|
    && (a > 0 ==> lv[a - 1] < k)
    && (e < |lv| ==> lv[e] < k)
    && forall q :: a <= q < e ==> lv[q] >= k
  }

  /** `p` is the first position of level `k` in `[a, e)`, or `e`. */
  predicate IsFirstAt(lv: seq<int>, k: int, a: nat, e: nat, p: nat) {
    && a <= p <= e <= |lv|
    && (p < e ==> lv[p] == k)
    && forall q :: a <= q < p ==> lv[q] != k
  }

  lemma {:induction false} StartEndDelimitRun(lv: seq<int>, k: int, i: nat)
    requires i < |lv| && lv[i] >= k
    ensures MaximalRun(lv, k, Start(lv, k, i), End(lv, k, i))
    ensures Start(lv, k, i) <= i < End(lv, k, i)
  {
    StartShape(lv, k, i);
    EndShape(lv, k, i);
  }

  lemma {:induction false} StartShape(lv: seq<int>, k: int, i: nat)
    requires i < |lv| && lv[i] >= k
    ensures var a := Start(lv, k, i);
      a <= i && (a > 0 ==> lv[a - 1] < k) && forall q :: a <= q <= i ==> lv[q] >= k
  {
    if i > 0 && lv[i - 1] >= k {
      StartShape(lv, k, i - 1);
    }
  }

  lemma {:induction false} EndShape(lv: seq<int>, k: int, i: nat)
    requires i <= |lv|
    ensures var e := End(lv, k, i);
      i <= e <= |lv| && (e < |lv| ==> lv[e] < k) && forall q :: i <= q < e ==> lv[q] >= k
    decreases |lv| - i
  {
    if i < |lv| && lv[i] >= k {
      EndShape(lv, k, i + 1);
    }
  }

  lemma {:induction false} FirstAtShape(lv: seq<int>, k: int, i: nat, e: nat)
    requires i <= e <= |lv|
    ensures IsFirstAt(lv, k, i, e, FirstAt(lv, k, i, e))
    decreases e - i
  {
    if i < e && lv[i] != k {
      FirstAtShape(lv, k, i + 1, e);
    }
  }

  lemma {:induction false} FirstAtIsAtLevel(lv: seq<int>, k: int, i: nat, e: nat)
    requires i <= e <= |lv| && FirstAt(lv, k, i, e) < e
    ensures lv[FirstAt(lv, k, i, e)] == k
  {
    FirstAtShape(lv, k, i, e);
  }

  /** The ends of a run are the same from everywhere inside it. */
  lemma {:induction false} RunBounds(lv: seq<int>, k: int, a: nat, e: nat, i: nat)
    requires MaximalRun(lv, k, a, e) && a <= i < e
    ensures Start(lv, k, i) == a && End(lv, k, i) == e
  {
    RunStart(lv, k, a, e, i);
    RunEnd(lv, k, a, e, i);
  }

  lemma {:induction false} RunStart(lv: seq<int>, k: int, a: nat, e: nat, i: nat)
    requires MaximalRun(lv, k, a, e) && a <= i < e
    ensures Start(lv, k, i) == a
  {
    if a < i {
      RunStart(lv, k, a, e, i - 1);
    }
  }

  lemma {:induction false} RunEnd(lv: seq<int>, k: int, a: nat, e: nat, i: nat)
    requires MaximalRun(lv, k, a, e) && a <= i <= e
    ensures End(lv, k, i) == e
    decreases e - i
  {
    if i < e {
      RunEnd(lv, k, a, e, i + 1);
    }
  }

  /** Where rule L2 at level `k` takes the character for cell `i` from. */
  function RulePos(lv: seq<int>, k: int, i: nat): (j: nat)
    requires i < |lv|
    ensures j < |lv|
  {
    if lv[i] < k then i else Start(lv, k, i) + End(lv, k, i) - 1 - i
  }

  /** Where the program's pass at level `k` takes the character for cell `i` from. */
  function FlipPos(lv: seq<int>, k: int, i: nat): (j: nat)
    requires i < |lv|
    ensures j < |lv|
  {
    if lv[i] < k then i
    else
      var e := End(lv, k, i);
      var p := FirstAt(lv, k, Start(lv, k, i), e);
      if i < p then i else p + e - 1 - i
  }

  /** Source of cell `i` after the rule's passes for levels `m, m-1, ..., k`. */
  function RuleSource(lv: seq<int>, k: int, m: int, i: nat): (j: nat)
    requires i < |lv|
    ensures j < |lv|
    decreases m - k
  {
    if k > m then i else RuleSource(lv, k + 1, m, RulePos(lv, k, i))
  }

  /** Source of cell `i` after the program's passes for levels `m, m-1, ..., k`. */
  function FlipSource(lv: seq<int>, k: int, m: int, i: nat): (j: nat)
    requires i < |lv|
    ensures j < |lv|
    decreases m - k
  {
    if k > m then i else FlipSource(lv, k + 1, m, FlipPos(lv, k, i))
  }

  /** The line the rule displays. */
  function RuleOrder<T>(lv: seq<int>, m: int, s: seq<T>): (r: seq<T>)
    requires |s| == |lv|
    ensures |r| == |s|
  {
    seq(|s|, i requires 0 <= i < |s| => s[RuleSource(lv, 1, m, i)])
  }

  /** The line after the program's passes for levels `m, m-1, ..., k`. */
  function FlipDownTo<T>(lv: seq<int>, k: int, m: int, s: seq<T>): (r: seq<T>)
    requires |s| == |lv|
    ensures |r| == |s|
  {
    seq(|s|, i requires 0 <= i < |s| => s[FlipSource(lv, k, m, i)])
  }

  /** The line the program displays. */
  function FlipOrder<T>(lv: seq<int>, m: int, s: seq<T>): (r: seq<T>)
    requires |s| == |lv|
    ensures |r| == |s|
  {
    FlipDownTo(lv, 1, m, s)
  }

  /** One pass of the program. */
  function FlipPass<T>(lv: seq<int>, k: int, s: seq<T>): (r: seq<T>)
    requires |s| == |lv|
    ensures |r| == |s|
  {
    seq(|s|, i requires 0 <= i < |s| => s[FlipPos(lv, k, i)])
  }

  // ------------------------------------------------------------------
  // One pass

  /** One pass of either kind is an involution that stays inside each maximal run. */
  lemma PassIsLocal(lv: seq<int>, k: int, i: nat)
    requires i < |lv|
    ensures RulePos(lv, k, RulePos(lv, k, i)) == i
    ensures FlipPos(lv, k, FlipPos(lv, k, i)) == i
    ensures lv[i] < k ==> RulePos(lv, k, i) == i && FlipPos(lv, k, i) == i
    ensures lv[i] >= k ==> Start(lv, k, i) <= RulePos(lv, k, i) < End(lv, k, i)
    ensures lv[i] >= k ==> Start(lv, k, i) <= FlipPos(lv, k, i) < End(lv, k, i)
  {
    if lv[i] >= k {
      StartEndDelimitRun(lv, k, i);
      var a, e := Start(lv, k, i), End(lv, k, i);
      RunBounds(lv, k, a, e, RulePos(lv, k, i));
      RunBounds(lv, k, a, e, FlipPos(lv, k, i));
    }
  }

  /** A run of a higher level lies inside a run of a lower one. */
  lemma {:induction false} RunsNest(lv: seq<int>, k: int, l: int, i: nat)
    requires i < |lv| && k <= l <= lv[i]
    ensures Start(lv, k, i) <= Start(lv, l, i) && End(lv, l, i) <= End(lv, k, i)
  {
    StartsNest(lv, k, l, i);
    EndsNest(lv, k, l, i);
  }

  lemma {:induction false} StartsNest(lv: seq<int>, k: int, l: int, i: nat)
    requires i < |lv| && k <= l <= lv[i]
    ensures Start(lv, k, i) <= Start(lv, l, i)
  {
    if i > 0 && lv[i - 1] >= l {
      StartsNest(lv, k, l, i - 1);
    }
  }

  lemma {:induction false} EndsNest(lv: seq<int>, k: int, l: int, i: nat)
    requires i <= |lv| && k <= l
    ensures End(lv, l, i) <= End(lv, k, i)
    decreases |lv| - i
  {
    if i < |lv| && lv[i] >= l {
      EndsNest(lv, k, l, i + 1);
    }
  }

  // ------------------------------------------------------------------
  // All passes

  /** Cells below the lowest level processed keep their character. */
  lemma {:induction false} LowCellsFixed(lv: seq<int>, k: int, m: int, i: nat)
    requires i < |lv| && lv[i] < k
    ensures RuleSource(lv, k, m, i) == i && FlipSource(lv, k, m, i) == i
    decreases m - k
  {
    if k <= m {
      LowCellsFixed(lv, k + 1, m, i);
    }
  }

  /** Characters never leave their maximal run of the lowest level processed. */
  lemma {:induction false} StaysInRun(lv: seq<int>, k: int, m: int, a: nat, e: nat, i: nat)
    requires MaximalRun(lv, k, a, e) && a <= i < e
    ensures a <= RuleSource(lv, k, m, i) < e && a <= FlipSource(lv, k, m, i) < e
    decreases m - k, 1
  {
    if k <= m {
      PassIsLocal(lv, k, i);
      RunBounds(lv, k, a, e, i);
      StaysInRunAbove(lv, k + 1, m, a, e, RulePos(lv, k, i));
      StaysInRunAbove(lv, k + 1, m, a, e, FlipPos(lv, k, i));
    }
  }

  lemma {:induction false} StaysInRunAbove(lv: seq<int>, k: int, m: int, a: nat, e: nat, i: nat)
    requires MaximalRun(lv, k - 1, a, e) && a <= i < e
    ensures a <= RuleSource(lv, k, m, i) < e && a <= FlipSource(lv, k, m, i) < e
    decreases m - k, 2
  {
    if lv[i] < k {
      LowCellsFixed(lv, k, m, i);
    } else {
      RunBounds(lv, k - 1, a, e, i);
      StartEndDelimitRun(lv, k, i);
      RunsNest(lv, k - 1, k, i);
      StaysInRun(lv, k, m, Start(lv, k, i), End(lv, k, i), i);
    }
  }

  /** No two cells take the same character: the display is a permutation of the line. */
  lemma {:induction false} SourcesDistinct(lv: seq<int>, k: int, m: int, i: nat, j: nat)
    requires i < |lv| && j < |lv| && i != j
    ensures RuleSource(lv, k, m, i) != RuleSource(lv, k, m, j)
    ensures FlipSource(lv, k, m, i) != FlipSource(lv, k, m, j)
    decreases m - k
  {
    if k <= m {
      PassIsLocal(lv, k, i);
      PassIsLocal(lv, k, j);
      SourcesDistinct(lv, k + 1, m, RulePos(lv, k, i), RulePos(lv, k, j));
      SourcesDistinct(lv, k + 1, m, FlipPos(lv, k, i), FlipPos(lv, k, j));
    }
  }

  /**
   With no assumption on the levels, what the program displays is a permutation of the
   line that never carries a character across the boundary of a run of level 1 or more.
   */
  lemma FlipIsLocalPermutation(lv: seq<int>, m: int)
    ensures forall i, j :: 0 <= i < j < |lv| ==> FlipSource(lv, 1, m, i) != FlipSource(lv, 1, m, j)
    ensures forall i :: 0 <= i < |lv| && lv[i] < 1 ==> FlipSource(lv, 1, m, i) == i
    ensures forall a: nat, e: nat, i :: MaximalRun(lv, 1, a, e) && a <= i < e ==> a <= FlipSource(lv, 1, m, i) < e
  {
    forall i, j | 0 <= i < j < |lv|
      ensures FlipSource(lv, 1, m, i) != FlipSource(lv, 1, m, j)
    {
      SourcesDistinct(lv, 1, m, i, j);
    }
    forall i | 0 <= i < |lv| && lv[i] < 1
      ensures FlipSource(lv, 1, m, i) == i
    {
      LowCellsFixed(lv, 1, m, i);
    }
    forall a: nat, e: nat, i | MaximalRun(lv, 1, a, e) && a <= i < e
      ensures a <= FlipSource(lv, 1, m, i) < e
    {
      StaysInRun(lv, 1, m, a, e, i);
    }
  }

  // ------------------------------------------------------------------
  // When the program follows the rule

  /**
   For a maximal run `[a, e)` of level `k` or more: the condition under which the program's
   passes from level `k` up leave the run as the rule does (`backwards == false`), or as
   the mirror image of what the rule does (`backwards == true`).  A run that has a character of
   level exactly `k` must start with one; a run without any is reversed by the rule only,
   so that one level further up the two have to be mirror images, which for a run with a
   character of the lowest level means that this character is the last one and alone.
   */
  predicate Follows(lv: seq<int>, k: int, m: int, a: nat, e: nat, backwards: bool)
    requires a <= e <= |lv|
    decreases m - k
  {
    k > m || a == e ||
    var p := FirstAt(lv, k, a, e);
    if p == e then
      Follows(lv, k + 1, m, a, e, !backwards)
    else if backwards then
      p == e - 1 && Follows(lv, k + 1, m, a, e - 1, false)
    else
      p == a && forall i :: a <= i < e && lv[i] > k ==>
        Follows(lv, k + 1, m, Start(lv, k + 1, i), End(lv, k + 1, i), false)
  }

  /** `lv` is no greater than `m` and every maximal run of level 1 or more follows the rule. */
  predicate Balanced(lv: seq<int>, m: int) {
    forall i :: 0 <= i < |lv| && lv[i] >= 1 ==>
      Follows(lv, 1, m, Start(lv, 1, i), End(lv, 1, i), false)
  }

  /** The program's passes from level `k` up agree with the rule's at cell `i` of `[a, e)`, directly or mirrored. */
  ghost predicate AgreeAt(lv: seq<int>, k: int, m: int, a: nat, e: nat, backwards: bool, i: nat)
    requires a <= i < e <= |lv|
  {
    FlipSource(lv, k, m, i) == RuleSource(lv, k, m, if backwards then a + e - 1 - i else i)
  }

  ghost predicate Agree(lv: seq<int>, k: int, m: int, a: nat, e: nat, backwards: bool)
    requires a <= e <= |lv|
  {
    forall i :: a <= i < e ==> AgreeAt(lv, k, m, a, e, backwards, i)
  }

  /** Peeling off the pass at level `k`: the rule's ... */
  lemma {:induction false} RuleStep(lv: seq<int>, k: int, m: int, a: nat, e: nat, i: nat)
    requires MaximalRun(lv, k, a, e) && k <= m && a <= i < e
    ensures RuleSource(lv, k, m, i) == RuleSource(lv, k + 1, m, a + e - 1 - i)
  {
    RunBounds(lv, k, a, e, i);
  }

  /** ... and the program's. */
  lemma {:induction false} FlipStep(lv: seq<int>, k: int, m: int, a: nat, e: nat, p: nat, i: nat)
    requires MaximalRun(lv, k, a, e) && k <= m && a <= i < e && p == FirstAt(lv, k, a, e)
    ensures FlipSource(lv, k, m, i) == FlipSource(lv, k + 1, m, if i < p then i else p + e - 1 - i)
  {
    RunBounds(lv, k, a, e, i);
  }

  lemma {:induction false} FollowsIffAgree(lv: seq<int>, k: int, m: int, a: nat, e: nat, backwards: bool)
    requires MaximalRun(lv, k, a, e)
    requires forall i :: 0 <= i < |lv| ==> lv[i] <= m
    ensures Follows(lv, k, m, a, e, backwards) <==> Agree(lv, k, m, a, e, backwards)
    decreases m - k, 2
  {
    var p := FirstAt(lv, k, a, e);
    assert lv[a] <= m;
    if p == e {
      NoneAtLevel(lv, k, m, a, e, backwards);
    } else if backwards {
      BackwardsRun(lv, k, m, a, e, p);
    } else {
      ForwardsRun(lv, k, m, a, e, p);
    }
  }

  /** A run with nothing at level `k`: only the rule turns it round. */
  lemma {:induction false} NoneAtLevel(lv: seq<int>, k: int, m: int, a: nat, e: nat, backwards: bool)
    requires MaximalRun(lv, k, a, e) && FirstAt(lv, k, a, e) == e
    requires forall i :: 0 <= i < |lv| ==> lv[i] <= m
    ensures Follows(lv, k, m, a, e, backwards) <==> Agree(lv, k, m, a, e, backwards)
    decreases m - k, 1
  {
    FirstAtShape(lv, k, a, e);
    assert lv[a] != k && lv[a] <= m;
    var l, other := k + 1, !backwards;
    FollowsIffAgree(lv, l, m, a, e, other);
    if Agree(lv, k, m, a, e, backwards) {
      forall i | a <= i < e
        ensures AgreeAt(lv, l, m, a, e, other, i)
      {
        NoneAtCell(lv, k, m, a, e, backwards, i);
      }
    } else {
      var i :| a <= i < e && !AgreeAt(lv, k, m, a, e, backwards, i);
      NoneAtCell(lv, k, m, a, e, backwards, i);
      assert !AgreeAt(lv, l, m, a, e, other, i);
    }
  }

  lemma {:induction false} NoneAtCell(lv: seq<int>, k: int, m: int, a: nat, e: nat, backwards: bool, i: nat)
    requires MaximalRun(lv, k, a, e) && k <= m && FirstAt(lv, k, a, e) == e && a <= i < e
    ensures AgreeAt(lv, k, m, a, e, backwards, i) == AgreeAt(lv, k + 1, m, a, e, !backwards, i)
  {
    hide FlipSource, RuleSource, FirstAt, MaximalRun;
    FlipStep(lv, k, m, a, e, e, i);
    RuleStep(lv, k, m, a, e, if backwards then a + e - 1 - i else i);
  }

  /** A run that must come out mirrored: its one character of level `k` has to be the last. */
  lemma {:induction false} BackwardsRun(lv: seq<int>, k: int, m: int, a: nat, e: nat, p: nat)
    requires MaximalRun(lv, k, a, e) && k <= m && p == FirstAt(lv, k, a, e) < e
    requires forall i :: 0 <= i < |lv| ==> lv[i] <= m
    ensures Follows(lv, k, m, a, e, true) <==> Agree(lv, k, m, a, e, true)
    decreases m - k, 1
  {
    if p != e - 1 {
      NotLast(lv, k, m, a, e, p);
    } else {
      LastAlone(lv, k, m, a, e);
      if a < p {
        FirstAtShape(lv, k, a, e);
        FollowsIffAgree(lv, k + 1, m, a, p, false);
      }
    }
  }

  /** The first character of level `k` goes last; mirrored, the rule keeps it in place. */
  lemma {:induction false} NotLast(lv: seq<int>, k: int, m: int, a: nat, e: nat, p: nat)
    requires MaximalRun(lv, k, a, e) && k <= m && p == FirstAt(lv, k, a, e) < e - 1
    ensures !Agree(lv, k, m, a, e, true)
  {
    hide FlipSource, RuleSource, FirstAt;
    FirstAtIsAtLevel(lv, k, a, e);
    LowCellsFixed(lv, k + 1, m, p);
    FlipStep(lv, k, m, a, e, p, e - 1);
    RuleStep(lv, k, m, a, e, a);
    SourcesDistinct(lv, k + 1, m, p, e - 1);
    assert !AgreeAt(lv, k, m, a, e, true, e - 1);
  }

  /** The first character of level `k` goes last; the rule sends the first of the run there. */
  lemma {:induction false} NotFirst(lv: seq<int>, k: int, m: int, a: nat, e: nat, p: nat)
    requires MaximalRun(lv, k, a, e) && k <= m && a < p == FirstAt(lv, k, a, e) < e
    ensures !Agree(lv, k, m, a, e, false)
  {
    hide FlipSource, RuleSource, FirstAt;
    FirstAtIsAtLevel(lv, k, a, e);
    LowCellsFixed(lv, k + 1, m, p);
    FlipStep(lv, k, m, a, e, p, e - 1);
    RuleStep(lv, k, m, a, e, e - 1);
    SourcesDistinct(lv, k + 1, m, p, a);
    assert !AgreeAt(lv, k, m, a, e, false, e - 1);
  }

  /** If the one character of level `k` is the last, the program leaves the run alone at `k`. */
  lemma {:induction false} LastAlone(lv: seq<int>, k: int, m: int, a: nat, e: nat)
    requires MaximalRun(lv, k, a, e) && k <= m && FirstAt(lv, k, a, e) == e - 1
    ensures Agree(lv, k, m, a, e, true) == Agree(lv, k + 1, m, a, e - 1, false)
  {
    var l, p := k + 1, e - 1;
    if Agree(lv, k, m, a, e, true) {
      forall i | a <= i < p
        ensures AgreeAt(lv, l, m, a, p, false, i)
      {
        LastAloneCell(lv, k, m, a, e, i);
      }
    } else {
      var i :| a <= i < e && !AgreeAt(lv, k, m, a, e, true, i);
      LastAloneCell(lv, k, m, a, e, i);
      assert !AgreeAt(lv, l, m, a, p, false, i);
    }
  }

  lemma {:induction false} LastAloneCell(lv: seq<int>, k: int, m: int, a: nat, e: nat, i: nat)
    requires MaximalRun(lv, k, a, e) && k <= m && FirstAt(lv, k, a, e) == e - 1 && a <= i < e
    ensures AgreeAt(lv, k, m, a, e, true, i) == (i == e - 1 || AgreeAt(lv, k + 1, m, a, e - 1, false, i))
  {
    hide FlipSource, RuleSource, FirstAt;
    FlipStep(lv, k, m, a, e, e - 1, i);
    RuleStep(lv, k, m, a, e, a + e - 1 - i);
    if i == e - 1 {
      FirstAtIsAtLevel(lv, k, a, e);
      LowCellsFixed(lv, k + 1, m, i);
    }
  }

  /** A run that must come out as the rule has it: its first character has to be of level `k`. */
  lemma {:induction false} ForwardsRun(lv: seq<int>, k: int, m: int, a: nat, e: nat, p: nat)
    requires MaximalRun(lv, k, a, e) && k <= m && p == FirstAt(lv, k, a, e) < e
    requires forall i :: 0 <= i < |lv| ==> lv[i] <= m
    ensures Follows(lv, k, m, a, e, false) <==> Agree(lv, k, m, a, e, false)
    decreases m - k, 1
  {
    if p != a {
      NotFirst(lv, k, m, a, e, p);
    } else {
      AgreeMirrored(lv, k, m, a, e);
      SubRuns(lv, k, m, a, e);
    }
  }

  /** A run that starts at level `k` is turned round as a whole by both passes. */
  lemma {:induction false} AgreeMirrored(lv: seq<int>, k: int, m: int, a: nat, e: nat)
    requires MaximalRun(lv, k, a, e) && k <= m && FirstAt(lv, k, a, e) == a
    ensures Agree(lv, k, m, a, e, false) == Agree(lv, k + 1, m, a, e, false)
  {
    hide FlipSource, RuleSource, FirstAt;
    var l := k + 1;
    if Agree(lv, k, m, a, e, false) {
      forall i | a <= i < e
        ensures AgreeAt(lv, l, m, a, e, false, i)
      {
        FlipStep(lv, k, m, a, e, a, a + e - 1 - i);
        RuleStep(lv, k, m, a, e, a + e - 1 - i);
        assert AgreeAt(lv, k, m, a, e, false, a + e - 1 - i);
      }
    } else {
      var i :| a <= i < e && !AgreeAt(lv, k, m, a, e, false, i);
      FlipStep(lv, k, m, a, e, a, i);
      RuleStep(lv, k, m, a, e, i);
      assert !AgreeAt(lv, k + 1, m, a, e, false, a + e - 1 - i);
    }
  }

  /** A run agrees one level up exactly if each of its runs of that level does. */
  lemma {:induction false} SubRuns(lv: seq<int>, k: int, m: int, a: nat, e: nat)
    requires MaximalRun(lv, k, a, e) && k <= m
    requires forall i :: 0 <= i < |lv| ==> lv[i] <= m
    ensures Agree(lv, k + 1, m, a, e, false) <==>
      forall i :: a <= i < e && lv[i] > k ==>
        Follows(lv, k + 1, m, Start(lv, k + 1, i), End(lv, k + 1, i), false)
    decreases m - k, 0
  {
    forall i | a <= i < e && lv[i] > k
      ensures a <= Start(lv, k + 1, i) <= i < End(lv, k + 1, i) <= e
      ensures Follows(lv, k + 1, m, Start(lv, k + 1, i), End(lv, k + 1, i), false)
        <==> Agree(lv, k + 1, m, Start(lv, k + 1, i), End(lv, k + 1, i), false)
    {
      RunBounds(lv, k, a, e, i);
      RunsNest(lv, k, k + 1, i);
      StartEndDelimitRun(lv, k + 1, i);
      FollowsIffAgree(lv, k + 1, m, Start(lv, k + 1, i), End(lv, k + 1, i), false);
    }
    var l := k + 1;
    if Agree(lv, l, m, a, e, false) {
      forall i | a <= i < e && lv[i] > k
        ensures Agree(lv, l, m, Start(lv, l, i), End(lv, l, i), false)
      {
        var b, d := Start(lv, l, i), End(lv, l, i);
        forall q | b <= q < d
          ensures AgreeAt(lv, l, m, b, d, false, q)
        {
          assert AgreeAt(lv, l, m, a, e, false, q);
        }
      }
    } else {
      var i :| a <= i < e && !AgreeAt(lv, k + 1, m, a, e, false, i);
      if lv[i] <= k {
        LowCellsFixed(lv, k + 1, m, i);
      } else {
        assert !AgreeAt(lv, k + 1, m, Start(lv, k + 1, i), End(lv, k + 1, i), false, i);
      }
    }
  }

  // ------------------------------------------------------------------
  // The refinement theorem

  /** On a balanced line the program displays exactly what rule L2 asks for. */
  lemma BalancedFollowsRule<T>(lv: seq<int>, m: int, s: seq<T>)
    requires |s| == |lv| && Balanced(lv, m)
    requires forall i :: 0 <= i < |lv| ==> lv[i] <= m
    ensures FlipOrder(lv, m, s) == RuleOrder(lv, m, s)
  {
    forall i | 0 <= i < |lv|
      ensures FlipSource(lv, 1, m, i) == RuleSource(lv, 1, m, i)
    {
      if lv[i] < 1 {
        LowCellsFixed(lv, 1, m, i);
      } else {
        var a, e := Start(lv, 1, i), End(lv, 1, i);
        StartEndDelimitRun(lv, 1, i);
        FollowsIffAgree(lv, 1, m, a, e, false);
        assert AgreeAt(lv, 1, m, a, e, false, i);
      }
    }
  }

  /** On any other line it displays something else, as soon as the characters can be told apart. */
  lemma UnbalancedBreaksRule<T>(lv: seq<int>, m: int, s: seq<T>)
    requires |s| == |lv| && !Balanced(lv, m)
    requires forall i :: 0 <= i < |lv| ==> lv[i] <= m
    requires forall i, j :: 0 <= i < j < |s| ==> s[i] != s[j]
    ensures FlipOrder(lv, m, s) != RuleOrder(lv, m, s)
  {
    var q :| 0 <= q < |lv| && lv[q] >= 1 && !Follows(lv, 1, m, Start(lv, 1, q), End(lv, 1, q), false);
    var a, e := Start(lv, 1, q), End(lv, 1, q);
    StartEndDelimitRun(lv, 1, q);
    FollowsIffAgree(lv, 1, m, a, e, false);
    var i :| a <= i < e && !AgreeAt(lv, 1, m, a, e, false, i);
    var f, r := FlipSource(lv, 1, m, i), RuleSource(lv, 1, m, i);
    assert FlipOrder(lv, m, s)[i] == s[f] && RuleOrder(lv, m, s)[i] == s[r];
  }

  lemma FlipFollowsRuleIff<T>(lv: seq<int>, m: int, s: seq<T>)
    requires |s| == |lv|
    requires forall i :: 0 <= i < |lv| ==> lv[i] <= m
    requires forall i, j :: 0 <= i < j < |s| ==> s[i] != s[j]
    ensures FlipOrder(lv, m, s) == RuleOrder(lv, m, s) <==> Balanced(lv, m)
  {
    if Balanced(lv, m) {
      BalancedFollowsRule(lv, m, s);
    } else {
      UnbalancedBreaksRule(lv, m, s);
    }
  }

  /** Passes above the highest level do nothing. */
  lemma {:induction false} IdleLevels(lv: seq<int>, k: int, m: int, m': int, i: nat)
    requires i < |lv| && m <= m' && forall q :: 0 <= q < |lv| ==> lv[q] <= m
    ensures FlipSource(lv, k, m, i) == FlipSource(lv, k, m', i)
    ensures RuleSource(lv, k, m, i) == RuleSource(lv, k, m', i)
    decreases m - k
  {
    if k > m {
      LowCellsFixed(lv, k, m', i);
    } else {
      IdleLevels(lv, k + 1, m, m', FlipPos(lv, k, i));
      IdleLevels(lv, k + 1, m, m', RulePos(lv, k, i));
    }
  }

  lemma OrderIgnoresIdleLevels<T>(lv: seq<int>, m: int, m': int, s: seq<T>)
    requires |s| == |lv| && m <= m' && forall q :: 0 <= q < |lv| ==> lv[q] <= m
    ensures FlipOrder(lv, m, s) == FlipOrder(lv, m', s)
    ensures RuleOrder(lv, m, s) == RuleOrder(lv, m', s)
  {
    forall i | 0 <= i < |lv|
      ensures FlipOrder(lv, m, s)[i] == FlipOrder(lv, m', s)[i]
      ensures RuleOrder(lv, m, s)[i] == RuleOrder(lv, m', s)[i]
    {
      IdleLevels(lv, 1, m, m', i);
    }
  }

  /** The levels start at 0 or 1 and rise by at most one from a character to the next. */
  predicate Stepwise(lv: seq<int>) {
    && (|lv| > 0 ==> lv[0] <= 1)
    && forall i :: 0 < i < |lv| ==> lv[i] <= lv[i - 1] + 1
  }

  lemma StepwiseIsBalanced(lv: seq<int>, m: int)
    requires Stepwise(lv)
    ensures Balanced(lv, m)
  {
    forall i | 0 <= i < |lv| && lv[i] >= 1
      ensures Follows(lv, 1, m, Start(lv, 1, i), End(lv, 1, i), false)
    {
      StartEndDelimitRun(lv, 1, i);
      StepwiseRunFollows(lv, 1, m, Start(lv, 1, i), End(lv, 1, i));
    }
  }

  lemma {:induction false} StepwiseRunFollows(lv: seq<int>, k: int, m: int, a: nat, e: nat)
    requires Stepwise(lv) && MaximalRun(lv, k, a, e) && lv[a] == k
    ensures Follows(lv, k, m, a, e, false)
    decreases m - k
  {
    if k <= m {
      forall i | a <= i < e && lv[i] > k
        ensures Follows(lv, k + 1, m, Start(lv, k + 1, i), End(lv, k + 1, i), false)
      {
        RunBounds(lv, k, a, e, i);
        RunsNest(lv, k, k + 1, i);
        StartEndDelimitRun(lv, k + 1, i);
        StepwiseRunFollows(lv, k + 1, m, Start(lv, k + 1, i), End(lv, k + 1, i));
      }
    }
  }

  /** A line with no embedding codes has levels 0, 1 and 2 only. */
  predicate UpToTwo(lv: seq<int>) {
    forall i :: 0 <= i < |lv| ==> 0 <= lv[i] <= 2
  }

  /** Every run of level 1 or 2 begins with level 1 or is a single character. */
  predicate RunsBeginAtOne(lv: seq<int>) {
    forall i :: 0 <= i < |lv| && lv[i] >= 1 ==>
      lv[Start(lv, 1, i)] == 1 || End(lv, 1, i) == Start(lv, 1, i) + 1
  }

  /** With levels up to 2, that is exactly when the rule is followed. */
  lemma BalancedUpToTwo(lv: seq<int>)
    requires UpToTwo(lv)
    ensures Balanced(lv, 2) <==> RunsBeginAtOne(lv)
  {
    forall i | 0 <= i < |lv| && lv[i] >= 1
      ensures Follows(lv, 1, 2, Start(lv, 1, i), End(lv, 1, i), false) <==>
        lv[Start(lv, 1, i)] == 1 || End(lv, 1, i) == Start(lv, 1, i) + 1
    {
      StartEndDelimitRun(lv, 1, i);
      FollowsUpToTwo(lv, Start(lv, 1, i), End(lv, 1, i));
    }
    assert Balanced(lv, 2) ==> RunsBeginAtOne(lv);
  }

  lemma {:induction false} FollowsUpToTwo(lv: seq<int>, a: nat, e: nat)
    requires UpToTwo(lv) && MaximalRun(lv, 1, a, e)
    ensures Follows(lv, 1, 2, a, e, false) <==> lv[a] == 1 || e == a + 1
  {
    FirstAtShape(lv, 1, a, e);
    var p := FirstAt(lv, 1, a, e);
    if p == a {
      forall i | a <= i < e && lv[i] > 1
        ensures Follows(lv, 2, 2, Start(lv, 2, i), End(lv, 2, i), false)
      {
        StartEndDelimitRun(lv, 2, i);
        AllTwos(lv, Start(lv, 2, i), End(lv, 2, i), false);
      }
    } else if p == e {
      assert lv[a] == 2;
      AllTwos(lv, a, e, true);
    } else {
      assert lv[a] != 1;
    }
  }

  lemma {:induction false} AllTwos(lv: seq<int>, a: nat, e: nat, backwards: bool)
    requires UpToTwo(lv) && a < e <= |lv| && forall q :: a <= q < e ==> lv[q] >= 2
    ensures Follows(lv, 2, 2, a, e, backwards) <==> !backwards || e == a + 1
  {
    assert lv[a] == 2;
    assert FirstAt(lv, 2, a, e) == a;
  }

  /** A run that begins with level 2 and is longer than one character. */
  predicate TwoLeads(lv: seq<int>, i: nat) {
    && i + 1 < |lv|
    && lv[i] == 2 && lv[i + 1] >= 1
    && (i > 0 ==> lv[i - 1] < 1)
  }

  lemma NoTwoLeadsIff(lv: seq<int>)
    requires UpToTwo(lv)
    ensures RunsBeginAtOne(lv) <==> forall i: nat :: !TwoLeads(lv, i)
  {
    hide Start, End;
    forall i | 0 <= i < |lv| && lv[i] >= 1
      ensures lv[Start(lv, 1, i)] != 1 && End(lv, 1, i) != Start(lv, 1, i) + 1 ==> TwoLeads(lv, Start(lv, 1, i))
    {
      StartEndDelimitRun(lv, 1, i);
    }
    forall i: nat | TwoLeads(lv, i)
      ensures !RunsBeginAtOne(lv)
    {
      StartEndDelimitRun(lv, 1, i);
    }
  }

  // ------------------------------------------------------------------
  // When the rule leaves the line as it is

  /** `i` is a run of level 1 or more by itself. */
  predicate StandsAlone(lv: seq<int>, i: nat)
    requires i < |lv|
  {
    && (i > 0 ==> lv[i - 1] < 1)
    && (i + 1 < |lv| ==> lv[i + 1] < 1)
  }

  predicate OnesStandAlone(lv: seq<int>) {
    forall i :: 0 <= i < |lv| && lv[i] == 1 ==> StandsAlone(lv, i)
  }

  /** A run without level 1 is turned round twice, a single character not at all. */
  lemma RuleKeepsCell(lv: seq<int>, i: nat)
    requires UpToTwo(lv) && OnesStandAlone(lv) && i < |lv|
    ensures RuleSource(lv, 1, 2, i) == i
  {
    if lv[i] < 1 {
      LowCellsFixed(lv, 1, 2, i);
    } else {
      StartEndDelimitRun(lv, 1, i);
      var a, e := Start(lv, 1, i), End(lv, 1, i);
      if lv[i] == 1 {
        assert StandsAlone(lv, i);
        assert a == i && e == i + 1;
        TwoPasses(lv, i);
      } else {
        TwosOnly(lv, a, e, i);
        assert MaximalRun(lv, 2, a, e);
        var j: nat := a + e - 1 - i;
        RunBounds(lv, 2, a, e, j);
        TwoPasses(lv, i);
      }
    }
  }

  /** In a run with a 2 in it, a 1 would not stand alone. */
  lemma {:induction false} TwosOnly(lv: seq<int>, a: nat, e: nat, i: nat)
    requires UpToTwo(lv) && OnesStandAlone(lv) && MaximalRun(lv, 1, a, e) && a <= i < e && lv[i] == 2
    ensures forall q :: a <= q < e ==> lv[q] == 2
  {
    forall q | a <= q < e
      ensures lv[q] == 2
    {
      OneStandsAlone(lv, q);
    }
  }

  lemma OneStandsAlone(lv: seq<int>, q: nat)
    requires OnesStandAlone(lv) && q < |lv|
    ensures lv[q] == 1 ==> StandsAlone(lv, q)
  {
  }

  lemma TwoPasses(lv: seq<int>, i: nat)
    requires i < |lv|
    ensures RuleSource(lv, 1, 2, i) == RulePos(lv, 2, RulePos(lv, 1, i))
  {
    var j := RulePos(lv, 1, i);
    assert RuleSource(lv, 2, 2, j) == RuleSource(lv, 3, 2, RulePos(lv, 2, j)) == RulePos(lv, 2, j);
  }

  lemma TwoFlips(lv: seq<int>, i: nat)
    requires i < |lv|
    ensures FlipSource(lv, 1, 2, i) == FlipPos(lv, 2, FlipPos(lv, 1, i))
  {
    var j := FlipPos(lv, 1, i);
    assert FlipSource(lv, 2, 2, j) == FlipSource(lv, 3, 2, FlipPos(lv, 2, j)) == FlipPos(lv, 2, j);
  }

  /** In a longer run with a 1 in it the first cell takes its character from elsewhere. */
  lemma RuleMovesFirst(lv: seq<int>, i: nat)
    requires UpToTwo(lv) && i < |lv| && lv[i] == 1 && !StandsAlone(lv, i)
    ensures RuleSource(lv, 1, 2, Start(lv, 1, i)) != Start(lv, 1, i)
  {
    StartEndDelimitRun(lv, 1, i);
    var a, e := Start(lv, 1, i), End(lv, 1, i);
    RunBounds(lv, 1, a, e, a);
    TwoPasses(lv, a);
    var z: nat := e - 1;
    if lv[z] >= 2 {
      StartEndDelimitRun(lv, 2, z);
      assert Start(lv, 2, z) > i;
    }
  }

  /** With levels up to 2 the rule leaves the line as it is exactly if every 1 stands alone. */
  lemma RuleKeepsLineIff<T>(lv: seq<int>, s: seq<T>)
    requires |s| == |lv| && UpToTwo(lv)
    requires forall i, j :: 0 <= i < j < |s| ==> s[i] != s[j]
    ensures RuleOrder(lv, 2, s) == s <==> OnesStandAlone(lv)
  {
    hide RuleSource, StandsAlone;
    if OnesStandAlone(lv) {
      forall i | 0 <= i < |s|
        ensures RuleOrder(lv, 2, s)[i] == s[i]
      {
        RuleKeepsCell(lv, i);
      }
    } else {
      var i :| 0 <= i < |lv| && lv[i] == 1 && !StandsAlone(lv, i);
      RuleMovesFirst(lv, i);
      var a := Start(lv, 1, i);
      assert RuleOrder(lv, 2, s)[a] == s[RuleSource(lv, 1, 2, a)];
    }
  }

  // ------------------------------------------------------------------
  // The program's passes, in place

  method FindIndexOfRun(level: array<Byte>, start: nat, tlevel: int) returns (i: nat)
    requires start <= level.Length
    ensures IsFirstAt(level[..], tlevel, start, level.Length, i)
  {
    i := start;
    while i < level.Length
      invariant start <= i <= level.Length
      invariant forall q :: start <= q < i ==> level[q] != tlevel
    {
      if tlevel == level[i] {
        return;
      }
      i := i + 1;
    }
  }

  /** Between the end of a run and the next character of level `k` nothing moves. */
  lemma {:induction false} GapStays(lv: seq<int>, k: int, i: nat, j: nat, q: nat)
    requires i <= q < j && IsFirstAt(lv, k, i, |lv|, j)
    requires i == 0 || i == |lv| || lv[i] < k
    ensures FlipPos(lv, k, q) == q
  {
    if lv[q] >= k {
      StartEndDelimitRun(lv, k, q);
      FirstAtShape(lv, k, Start(lv, k, q), End(lv, k, q));
    }
  }

  /** From there to the end of the run the order is reversed. */
  lemma {:induction false} RunTurns(lv: seq<int>, k: int, i: nat, j: nat, e: nat, q: nat)
    requires j <= q < e && IsFirstAt(lv, k, i, |lv|, j)
    requires i == 0 || i == |lv| || lv[i] < k
    requires e <= |lv| && (e < |lv| ==> lv[e] < k) && forall x :: j <= x < e ==> lv[x] >= k
    ensures FlipPos(lv, k, q) == j + e - 1 - q
  {
    StartEndDelimitRun(lv, k, q);
    var a := Start(lv, k, q);
    EndWhere(lv, k, e, q);
    StartBetween(lv, k, i, j, q);
    FirstAtShape(lv, k, a, e);
  }

  lemma {:induction false} EndWhere(lv: seq<int>, k: int, e: nat, q: nat)
    requires q <= e <= |lv| && (e < |lv| ==> lv[e] < k) && forall x :: q <= x < e ==> lv[x] >= k
    ensures End(lv, k, q) == e
    decreases e - q
  {
    if q < e {
      EndWhere(lv, k, e, q + 1);
    }
  }

  lemma {:induction false} StartBetween(lv: seq<int>, k: int, i: nat, j: nat, q: nat)
    requires i <= j <= q < |lv| && (i == 0 || lv[i] < k) && forall x :: j <= x <= q ==> lv[x] >= k
    ensures i <= Start(lv, k, q) <= j
    decreases q
  {
    StartShape(lv, k, q);
    if j < q {
      StartBetween(lv, k, i, j, q - 1);
    }
  }

  /** What one turn of the outer loop has to achieve. */
  lemma PassOnStretch<T>(lv: seq<int>, k: int, s: seq<T>, i: nat, j: nat, e: nat)
    requires |s| == |lv| && IsFirstAt(lv, k, i, |lv|, j) && j <= e <= |lv|
    requires i == 0 || i == |lv| || lv[i] < k
    requires (e < |lv| ==> lv[e] < k) && forall x :: j <= x < e ==> lv[x] >= k
    ensures forall q :: i <= q < j ==> FlipPass(lv, k, s)[q] == s[q]
    ensures forall q :: j <= q < e ==> FlipPass(lv, k, s)[q] == s[j + e - 1 - q]
  {
    forall q | i <= q < j
      ensures FlipPass(lv, k, s)[q] == s[q]
    {
      GapStays(lv, k, i, j, q);
    }
    forall q | j <= q < e
      ensures FlipPass(lv, k, s)[q] == s[j + e - 1 - q]
    {
      RunTurns(lv, k, i, j, e, q);
    }
  }

  lemma PassGoesDown<T>(lv: seq<int>, k: int, m: int, s: seq<T>)
    requires |s| == |lv|
    ensures FlipDownTo(lv, m + 1, m, s) == s
    ensures k <= m ==> FlipPass(lv, k, FlipDownTo(lv, k + 1, m, s)) == FlipDownTo(lv, k, m, s)
  {
  }

  method Swap(from: array<BidiChar>, j: nat, k: nat)
    requires j < k < from.Length
    modifies from
    ensures from[..] == old(from[..][j := from[k]][k := from[j]])
    ensures multiset(from[..]) == old(multiset(from[..]))
  {
    from[k], from[j] := from[j], from[k];
  }

  /** Swaps the cells of one stretch end for end. */
  method ReverseStretch(from: array<BidiChar>, first: nat, end: nat)
    requires first <= end <= from.Length
    modifies from
    ensures forall q :: first <= q < end ==> from[q] == old(from[first + end - 1 - q])
    ensures forall q :: 0 <= q < first || end <= q < from.Length ==> from[q] == old(from[q])
    ensures multiset(from[..]) == old(multiset(from[..]))
  {
    var j, k := first, end - 1;
    while k > j
      invariant first <= j <= k + 1 <= end && j + k == first + end - 1
      invariant forall q :: j <= q <= k || 0 <= q < first || end <= q < from.Length ==> from[..][q] == old(from[q])
      invariant forall q :: first <= q < j || k < q < end ==> from[..][q] == old(from[first + end - 1 - q])
      invariant multiset(from[..]) == old(multiset(from[..]))
      decreases k - j
    {
      Swap(from, j, k);
      k, j := k - 1, j + 1;
    }
    assert forall q :: 0 <= q < from.Length ==> from[q] == from[..][q];
  }

  /** First position at or after `start` whose level is below `max`. */
  method FindEndOfRun(level: array<Byte>, start: nat, max: int) returns (e: nat)
    requires start <= level.Length
    ensures start <= e <= level.Length && (e < level.Length ==> level[e] < max)
    ensures forall x :: start <= x < e ==> level[x] >= max
  {
    e := start;
    while e < level.Length && max <= level[e]
      invariant start <= e <= level.Length
      invariant forall x :: start <= x < e ==> level[x] >= max
    {
      e := e + 1;
    }
  }

  lemma StretchDone<T>(s: seq<T>, goal: seq<T>, now: seq<T>, next: seq<T>, i: nat, j: nat, e: nat)
    requires i <= j <= e <= |s| == |goal| == |now| == |next|
    requires now == goal[..i] + s[i..]
    requires forall q :: i <= q < j ==> goal[q] == s[q]
    requires forall q :: j <= q < e ==> goal[q] == s[j + e - 1 - q]
    requires forall q :: j <= q < e ==> next[q] == now[j + e - 1 - q]
    requires forall q :: 0 <= q < j || e <= q < |now| ==> next[q] == now[q]
    ensures next == goal[..e] + s[e..]
  {
  }

  /** Turns the next stretch round; `s` is the line before the pass and `goal` the line after it. */
  method FlipNextRun(from: array<BidiChar>, level: array<Byte>, max: int, start: nat,
                     ghost lv: seq<int>, ghost s: seq<BidiChar>, ghost goal: seq<BidiChar>)
    returns (i: nat)
    requires start < from.Length == level.Length == |s| && level[..] == lv
    requires start == 0 || lv[start] < max
    requires goal == FlipPass(lv, max, s)
    requires from[..] == goal[..start] + s[start..]
    modifies from
    ensures start < i <= |s| && (i == |s| || lv[i] < max)
    ensures from[..] == goal[..i] + s[i..]
    ensures multiset(from[..]) == old(multiset(from[..]))
  {
    ghost var now := from[..];
    var j := FindIndexOfRun(level, start, max);
    i := FindEndOfRun(level, j, max);
    PassOnStretch(lv, max, s, start, j, i);
    ReverseStretch(from, j, i);
    StretchDone(s, goal, now, from[..], start, j, i);
  }

  /** One pass over the line. */
  method FlipThisRun(from: array<BidiChar>, level: array<Byte>, max: int)
    requires from.Length == level.Length
    modifies from
    ensures from[..] == FlipPass(level[..], max, old(from[..]))
    ensures multiset(from[..]) == old(multiset(from[..]))
  {
    ghost var lv: seq<int>, s := level[..], from[..];
    ghost var goal := FlipPass(lv, max, s);
    var i := 0;
    while i < from.Length
      invariant 0 <= i <= |s|
      invariant i == 0 || i == |s| || lv[i] < max
      invariant from[..] == goal[..i] + s[i..]
      invariant multiset(from[..]) == multiset(s)
      decreases |s| - i
    {
      i := FlipNextRun(from, level, max, i, lv, s, goal);
    }
    assert goal[..i] + s[i..] == goal;
  }

  method HighestLevel(level: array<Byte>) returns (max: Byte)
    requires level.Length > 0
    ensures forall q :: 0 <= q < level.Length ==> level[q] <= max
    ensures max in level[..]
  {
    var i := 0;
    max := level[0];
    while i < level.Length
      invariant 0 <= i <= level.Length
      invariant forall q :: 0 <= q < i ==> level[q] <= max
      invariant max in level[..]
    {
      if level[i] > max {
        max := level[i];
      }
      i := i + 1;
    }
  }

  /** One pass per level, from the highest down to 1. */
  method Reorder(line: array<BidiChar>, level: array<Byte>) returns (max: Byte)
    requires line.Length == level.Length > 0
    modifies line
    ensures forall q :: 0 <= q < level.Length ==> level[q] <= max
    ensures max in level[..]
    ensures line[..] == FlipOrder(level[..], max, old(line[..]))
    ensures multiset(line[..]) == old(multiset(line[..]))
  {
    max := HighestLevel(level);
    var tempType: nat := max;
    ghost var lv: seq<int>, s := level[..], line[..];
    ghost var done: int := max + 1;
    PassGoesDown(lv, max, max, s);
    while tempType > 0
      invariant 0 <= tempType <= max && done == tempType + 1 && level[..] == lv
      invariant line[..] == FlipDownTo(lv, done, max, s)
      invariant multiset(line[..]) == multiset(s)
    {
      PassGoesDown(lv, tempType, max, s);
      FlipThisRun(line, level, tempType);
      done := tempType;
      tempType := tempType - 1;
    }
    assert done == 1;
  }
}
