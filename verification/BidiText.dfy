/** Text levels. */
module BidiText {
  import opened Bytes
  import opened BidiChars
  import opened BidiFlip
  import opened BidiRules
  import opened Bidi

  // What the weak rules come to in the levels of a line without embedding or override codes, and
  // how a number with separators in it is shown.

  /** The types that rules W1 to W3 leave. */
  function NumberTypes(raw: seq<Byte>): (ts: seq<Byte>)
    ensures |ts| == |raw|
  {
    W3(W2(W1(PlainTypes(raw), ParagraphLevel(raw))))
  }

  function WeakTypes(raw: seq<Byte>): (ts: seq<Byte>)
    ensures |ts| == |raw|
  {
    ResolveWeak(PlainTypes(raw), ParagraphLevel(raw))
  }

  /** The levels of letters and numbers. */
  function LevelOf(t: Byte, p: Byte): Byte {
    if t == R then 1 else if t == L && p == 0 then 0 else 2
  }

  predicate Resolved(t: Byte) {
    t == L || t == R || t == EN || t == AN
  }

  /** What the weak rules resolve has the level of its type. */
  lemma ResolvedLevel(raw: seq<Byte>, i: nat)
    requires NoExplicitCodes(raw) && i < |raw| && Resolved(WeakTypes(raw)[i])
    requires raw[i] != WS && raw[i] != S && raw[i] != B
    ensures LineLevels(raw)[i] == LevelOf(WeakTypes(raw)[i], ParagraphLevel(raw))
  {
    var p := ParagraphLevel(raw);
    hide ResolveWeak, LineLevels, ImplicitLevels, EmbeddingLevels, ParagraphLevel, NoExplicitCodes, PlainTypes, N1At;
    PlainStart(raw, p);
    LevelsFollowTypes(raw, p, i);
    LevelAfterL1(raw, i);
    N1KeepsResolved(WeakTypes(raw), i);
    assert ResolvedTypes(raw, p)[i] == N2At(N1(WeakTypes(raw)), EmbeddingLevels(raw, p), i);
    assert SpaceEnd(raw, i) == i;
  }

  lemma N1KeepsResolved(ts: seq<Byte>, i: nat)
    requires i < |ts| && ts[i] != ON
    ensures N1(ts)[i] == ts[i]
  {
  }

  // ------------------------------------------------------------------
  // Separators

  /** A single separator between two European numbers, or a comma between two Arabic ones. */
  predicate Joins(ts: seq<Byte>, i: nat) {
    && 0 < i < |ts| - 1
    && (((ts[i] == ES || ts[i] == CS) && ts[i - 1] == EN && ts[i + 1] == EN)
        || (ts[i] == CS && ts[i - 1] == AN && ts[i + 1] == AN))
  }

  /** What rules W4 to W7 make of a separator: the type of its neighbours, or a neutral. */
  lemma SeparatorType(raw: seq<Byte>, i: nat)
    requires i < |raw| && (NumberTypes(raw)[i] == ES || NumberTypes(raw)[i] == CS)
    ensures if Joins(NumberTypes(raw), i)
            then Resolved(WeakTypes(raw)[i]) && WeakTypes(raw)[i - 1] == WeakTypes(raw)[i] == WeakTypes(raw)[i + 1]
            else WeakTypes(raw)[i] == ON
  {
    hide W1, W2, W3, PlainTypes, ParagraphLevel;
    var w3 := NumberTypes(raw);
    var w4 := W4(w3);
    var w6 := W6(W5(w4));
    assert WeakTypes(raw) == W7(w6);
    if Joins(w3, i) {
      assert w4[i - 1] == w4[i] == w4[i + 1] == w3[i - 1];
      assert w6[i - 1] == w6[i] == w6[i + 1] == w3[i - 1];
      assert LastStrong(w6, i + 1) == LastStrong(w6, i) == LastStrong(w6, i - 1);
    } else {
      assert w6[i] == ON;
    }
  }

  lemma NumbersAreNotSpace(raw: seq<Byte>, i: nat)
    requires i < |raw|
    requires var t := NumberTypes(raw)[i]; t == EN || t == AN || t == ES || t == CS || t == ET
    ensures raw[i] != WS && raw[i] != S && raw[i] != B
  {
  }

  /** A separator that joins two numbers has their level; any other is resolved as a neutral. */
  lemma SeparatorTakesLevel(raw: seq<Byte>, i: nat)
    requires NoExplicitCodes(raw) && i < |raw| && (NumberTypes(raw)[i] == ES || NumberTypes(raw)[i] == CS)
    ensures if Joins(NumberTypes(raw), i)
            then LineLevels(raw)[i - 1] == LineLevels(raw)[i] == LineLevels(raw)[i + 1]
            else WeakTypes(raw)[i] == ON
  {
    hide NumberTypes, WeakTypes, LineLevels, NoExplicitCodes, Joins;
    SeparatorType(raw, i);
    if Joins(NumberTypes(raw), i) {
      InsideLine(raw, i);
      JoinedCell(raw, i, i - 1);
      JoinedCell(raw, i, i);
      JoinedCell(raw, i, i + 1);
    }
  }

  lemma InsideLine(raw: seq<Byte>, i: nat)
    requires Joins(NumberTypes(raw), i)
    ensures 0 < i < |raw| - 1
  {
    hide NumberTypes;
  }

  lemma JoinedCell(raw: seq<Byte>, i: nat, q: nat)
    requires NoExplicitCodes(raw) && Joins(NumberTypes(raw), i) && i - 1 <= q <= i + 1 && i < |raw| - 1
    requires Resolved(WeakTypes(raw)[q])
    ensures LineLevels(raw)[q] == LevelOf(WeakTypes(raw)[q], ParagraphLevel(raw))
  {
    hide WeakTypes, NumberTypes, LineLevels, NoExplicitCodes;
    NumbersAreNotSpace(raw, q);
    ResolvedLevel(raw, q);
  }

  // ------------------------------------------------------------------
  // Terminators

  /** A maximal run of terminators, and whether a European number touches it. */
  predicate TerminatorRun(ts: seq<Byte>, a: nat, e: nat) {
    && a < e <= |ts|
    && (forall q :: a <= q < e ==> ts[q] == ET)
    && (a > 0 ==> ts[a - 1] != ET)
    && (e < |ts| ==> ts[e] != ET)
  }

  predicate Touched(ts: seq<Byte>, a: nat, e: nat)
    requires a <= e <= |ts|
  {
    (a > 0 && ts[a - 1] == EN) || (e < |ts| && ts[e] == EN)
  }

  lemma TerminatorTypes(raw: seq<Byte>, a: nat, e: nat)
    requires TerminatorRun(NumberTypes(raw), a, e)
    ensures var w5 := W5(W4(NumberTypes(raw)));
      && (forall q :: a <= q < e ==> w5[q] == if Touched(NumberTypes(raw), a, e) then EN else ET)
      && (a > 0 && NumberTypes(raw)[a - 1] == EN ==> w5[a - 1] == EN)
      && (e < |raw| && NumberTypes(raw)[e] == EN ==> w5[e] == EN)
  {
    hide W1, W2, W3, PlainTypes, ParagraphLevel, NumberBefore, NumberAfter, NumberTypes;
    var w3 := NumberTypes(raw);
    var w4 := W4(w3);
    assert forall q :: a <= q < e ==> w4[q] == ET;
    assert a > 0 ==> w4[a - 1] == w3[a - 1];
    assert e < |raw| ==> w4[e] == w3[e];
    W5OnRun(w4, a, e);
  }

  lemma {:induction false} SameLastStrong(ts: seq<Byte>, a: nat, e: nat)
    requires a <= e < |ts| && forall q :: a < q <= e ==> !Strong(ts[q])
    ensures LastStrong(ts, e) == LastStrong(ts, a)
    decreases e - a
  {
    if a < e {
      SameLastStrong(ts, a, e - 1);
    }
  }

  lemma W7OnStretch(ts: seq<Byte>, a: nat, e: nat)
    requires a < e <= |ts| && forall q :: a <= q < e ==> ts[q] == EN
    ensures forall q :: a <= q < e ==> W7(ts)[q] == W7(ts)[a] && (W7(ts)[q] == EN || W7(ts)[q] == L)
  {
    forall q | a <= q < e
      ensures W7(ts)[q] == W7(ts)[a]
    {
      SameLastStrong(ts, a, q);
    }
  }

  /** Terminators that touch a European number have its level; others are resolved as neutrals. */
  lemma TerminatorsTakeLevel(raw: seq<Byte>, a: nat, e: nat, q: nat)
    requires NoExplicitCodes(raw) && TerminatorRun(NumberTypes(raw), a, e) && a <= q < e
    ensures a > 0 && NumberTypes(raw)[a - 1] == EN ==> LineLevels(raw)[q] == LineLevels(raw)[a - 1]
    ensures e < |raw| && NumberTypes(raw)[e] == EN ==> LineLevels(raw)[q] == LineLevels(raw)[e]
    ensures !Touched(NumberTypes(raw), a, e) ==> WeakTypes(raw)[q] == ON
  {
    hide NumberTypes, LineLevels, NoExplicitCodes, PlainTypes, W1, W2, W3, W4, W5, ParagraphLevel;
    TerminatorTypes(raw, a, e);
    var w3, w5 := NumberTypes(raw), W5(W4(NumberTypes(raw)));
    WeakEnds(raw);
    if Touched(w3, a, e) {
      var b := if a > 0 && w3[a - 1] == EN then a - 1 else a;
      var f := if e < |raw| && w3[e] == EN then e + 1 else e;
      assert forall x :: b <= x < f ==> W6(w5)[x] == EN;
      W7OnStretch(W6(w5), b, f);
      forall x: nat | b <= x < f
        ensures LineLevels(raw)[x] == LevelOf(WeakTypes(raw)[b], ParagraphLevel(raw))
      {
        hide W7, W6;
        NumbersAreNotSpace(raw, x);
        ResolvedLevel(raw, x);
      }
    } else {
      assert W6(w5)[q] == ON;
    }
  }

  lemma WeakEnds(raw: seq<Byte>)
    ensures WeakTypes(raw) == W7(W6(W5(W4(NumberTypes(raw)))))
  {
  }

  // ------------------------------------------------------------------
  // Marks

  /** A nonspacing mark goes with the character before it through all the weak rules. */
  lemma MarkTypes(raw: seq<Byte>, i: nat)
    requires 0 < i < |raw| && raw[i] == NSM
    ensures WeakTypes(raw)[i] == WeakTypes(raw)[i - 1]
  {
    hide ParagraphLevel;
    var w1 := W1(PlainTypes(raw), ParagraphLevel(raw));
    assert w1[i] == w1[i - 1];
    MarkThroughWeak(w1, i);
  }

  /** Two neighbours of one type are treated alike. */
  lemma MarkThroughWeak(w1: seq<Byte>, i: nat)
    requires 0 < i < |w1| && w1[i] == w1[i - 1]
    ensures W7(W6(W5(W4(W3(W2(w1))))))[i] == W7(W6(W5(W4(W3(W2(w1))))))[i - 1]
  {
    hide LastStrong, NumberBefore, NumberAfter;
    NeighboursShareStrong(w1, i);
    var w3 := W3(W2(w1));
    assert w3[i] == w3[i - 1];
    var w4 := W4(w3);
    assert w4[i] == w4[i - 1] == w3[i];
    if w4[i] == ET {
      NeighboursShareNumber(w4, i);
    }
    var w6 := W6(W5(w4));
    assert w6[i] == w6[i - 1];
    NeighboursShareStrong(w6, i);
  }

  lemma NeighboursShareStrong(ts: seq<Byte>, i: nat)
    requires 0 < i < |ts| && ts[i] == ts[i - 1]
    ensures LastStrong(ts, i) == LastStrong(ts, i - 1)
  {
  }

  lemma NeighboursShareNumber(ts: seq<Byte>, i: nat)
    requires 0 < i < |ts| && ts[i] == ts[i - 1] == ET
    ensures NumberBefore(ts, i) == NumberBefore(ts, i - 1) && NumberAfter(ts, i) == NumberAfter(ts, i - 1)
  {
  }

  /** Its level is that of the character before it, unless that one is a separator which goes back to the paragraph. */
  lemma MarkTakesLevel(raw: seq<Byte>, i: nat)
    requires NoExplicitCodes(raw) && i < |raw| && raw[i] == NSM
    ensures i == 0 ==> LineLevels(raw)[0] == ParagraphLevel(raw)
    ensures i > 0 && raw[i - 1] != S ==> LineLevels(raw)[i] == LineLevels(raw)[i - 1]
  {
    if i == 0 {
      FirstMark(raw);
    } else if raw[i - 1] != S {
      MarkTypes(raw, i);
      SameTypeSameLevel(raw, i);
    }
  }

  /** The stored start-of-line type happens to give a mark at the start of the line the right level. */
  lemma FirstMark(raw: seq<Byte>)
    requires NoExplicitCodes(raw) && raw != [] && raw[0] == NSM
    ensures LineLevels(raw)[0] == ParagraphLevel(raw)
  {
    hide LineLevels, NoExplicitCodes, ParagraphLevel;
    var p := ParagraphLevel(raw);
    assert W1(PlainTypes(raw), p)[0] == p;
    if p == 1 {
      LeadingLevel(raw);
    } else {
      assert W3(W2(W1(PlainTypes(raw), p)))[0] == L;
      assert WeakTypes(raw)[0] == L;
      ResolvedLevel(raw, 0);
    }
  }

  lemma SameTypeSameLevel(raw: seq<Byte>, i: nat)
    requires NoExplicitCodes(raw) && 0 < i < |raw| && WeakTypes(raw)[i] == WeakTypes(raw)[i - 1]
    requires raw[i] == NSM && raw[i - 1] != S
    ensures LineLevels(raw)[i] == LineLevels(raw)[i - 1]
  {
    hide WeakTypes, LineLevels, NoExplicitCodes, ParagraphLevel, PlainTypes, ImplicitLevels, EmbeddingLevels,
         ResolvedTypes, Resets, NeutralStart, NeutralEnd;
    var p := ParagraphLevel(raw);
    SameTypeSameImplicit(raw, i);
    LevelAfterL1(raw, i);
    LevelAfterL1(raw, i - 1);
    MarkNotReset(raw, i);
    if raw[i - 1] == B {
      SeparatorLevel(raw, i - 1);
    }
  }

  lemma MarkNotReset(raw: seq<Byte>, i: nat)
    requires 0 < i < |raw| && raw[i] == NSM
    ensures !Resets(raw, i) && (Resets(raw, i - 1) ==> raw[i - 1] == S || raw[i - 1] == B)
  {
    assert SpaceEnd(raw, i) == i;
  }

  lemma SeparatorLevel(raw: seq<Byte>, i: nat)
    requires NoExplicitCodes(raw) && i < |raw| && raw[i] == B
    ensures ImplicitLevels(raw, ParagraphLevel(raw))[i] == ParagraphLevel(raw)
  {
    hide LineLevels, NoExplicitCodes, ParagraphLevel, EmbeddingLevels, ImplicitLevels;
    var p := ParagraphLevel(raw);
    SpaceIsNoNumber(PlainTypes(raw), p, i);
    PlainStart(raw, p);
    N1KeepsResolved(WeakTypes(raw), i);
    assert ResolvedTypes(raw, p)[i] == N2At(N1(WeakTypes(raw)), EmbeddingLevels(raw, p), i) == B;
    LevelsFollowTypes(raw, p, i);
  }

  lemma SameTypeSameImplicit(raw: seq<Byte>, i: nat)
    requires NoExplicitCodes(raw) && 0 < i < |raw| && WeakTypes(raw)[i] == WeakTypes(raw)[i - 1]
    ensures var levels := ImplicitLevels(raw, ParagraphLevel(raw)); levels[i] == levels[i - 1]
  {
    hide ResolveWeak, NoExplicitCodes, ParagraphLevel, PlainTypes, EmbeddingLevels, NeutralStart, NeutralEnd, N1At;
    var p := ParagraphLevel(raw);
    PlainStart(raw, p);
    var weak, levels := WeakTypes(raw), EmbeddingLevels(raw, p);
    N1Alike(weak, i);
    var ts := ResolvedTypes(raw, p);
    assert ts[i] == N2At(N1(weak), levels, i) && ts[i - 1] == N2At(N1(weak), levels, i - 1);
    assert ImplicitLevels(raw, p)[i] == ImplicitAt(ts, levels, i);
    assert ImplicitLevels(raw, p)[i - 1] == ImplicitAt(ts, levels, i - 1);
  }

  lemma N1Alike(ts: seq<Byte>, i: nat)
    requires 0 < i < |ts| && ts[i] == ts[i - 1]
    ensures N1(ts)[i] == N1(ts)[i - 1]
  {
    if ts[i] == ON {
      NeighboursAlike(ts, i);
    }
  }

  // ------------------------------------------------------------------
  // Numbers, as they stand in the line

  lemma {:induction false} MarksKeepArabic(raw: seq<Byte>, i: nat)
    requires i < |raw|
    ensures LastStrong(W1(PlainTypes(raw), ParagraphLevel(raw)), i) == AL <==> LastStrong(raw, i) == AL
  {
    hide ParagraphLevel;
    if i > 0 {
      MarksKeepArabic(raw, i - 1);
    }
  }

  /** A European number is Arabic exactly if the last letter before it is. */
  predicate ArabicDigit(raw: seq<Byte>, i: nat)
    requires i < |raw|
  {
    raw[i] == AN || (raw[i] == EN && LastStrong(raw, i) == AL)
  }

  predicate EuropeanDigit(raw: seq<Byte>, i: nat)
    requires i < |raw|
  {
    raw[i] == EN && LastStrong(raw, i) != AL
  }

  lemma NumberTypeOf(raw: seq<Byte>, i: nat)
    requires i < |raw|
    ensures ArabicDigit(raw, i) ==> NumberTypes(raw)[i] == AN
    ensures EuropeanDigit(raw, i) ==> NumberTypes(raw)[i] == EN
    ensures raw[i] == ES || raw[i] == CS || raw[i] == ET || raw[i] == L ==> NumberTypes(raw)[i] == raw[i]
    ensures raw[i] == R || raw[i] == AL ==> NumberTypes(raw)[i] == R
  {
    MarksKeepArabic(raw, i);
  }

  /** Digits of one kind with single separators between them; Arabic ones take only the comma. */
  predicate NumberText(raw: seq<Byte>, a: nat, e: nat, arabic: bool) {
    && a < e <= |raw|
    && forall q :: a <= q < e ==> DigitOf(raw, q, arabic) || SeparatorIn(raw, a, e, q, arabic)
  }

  predicate DigitOf(raw: seq<Byte>, q: nat, arabic: bool)
    requires q < |raw|
  {
    if arabic then ArabicDigit(raw, q) else EuropeanDigit(raw, q)
  }

  predicate SeparatorIn(raw: seq<Byte>, a: nat, e: nat, q: nat, arabic: bool)
    requires e <= |raw| && q < |raw|
  {
    && (raw[q] == CS || (raw[q] == ES && !arabic))
    && a < q < e - 1 && DigitOf(raw, q - 1, arabic) && DigitOf(raw, q + 1, arabic)
  }

  /** In a right-to-left paragraph such a text is at level 2 throughout. */
  lemma NumberTextIsOneStretch(raw: seq<Byte>, a: nat, e: nat, arabic: bool)
    requires NoExplicitCodes(raw) && ParagraphLevel(raw) == 1 && NumberText(raw, a, e, arabic)
    ensures forall q :: a <= q < e ==> LineLevels(raw)[q] == 2
  {
    forall q | a <= q < e
      ensures LineLevels(raw)[q] == 2
    {
      hide LineLevels, NoExplicitCodes, ParagraphLevel, NumberText;
      NumberTextCell(raw, a, e, q, arabic);
    }
  }

  lemma NumberTextCell(raw: seq<Byte>, a: nat, e: nat, q: nat, arabic: bool)
    requires NoExplicitCodes(raw) && ParagraphLevel(raw) == 1 && NumberText(raw, a, e, arabic) && a <= q < e
    ensures LineLevels(raw)[q] == 2
  {
    hide LineLevels, NumberTypes, WeakTypes, NoExplicitCodes, ParagraphLevel, ArabicDigit, EuropeanDigit;
    if DigitOf(raw, q, arabic) {
      DigitLevel(raw, q, arabic);
    } else {
      SeparatorJoins(raw, a, e, q, arabic);
      hide NumberText;
      DigitLevel(raw, q - 1, arabic);
      SeparatorTakesLevel(raw, q);
    }
  }

  lemma SeparatorJoins(raw: seq<Byte>, a: nat, e: nat, q: nat, arabic: bool)
    requires e <= |raw| && q < |raw| && SeparatorIn(raw, a, e, q, arabic)
    ensures Joins(NumberTypes(raw), q) && (NumberTypes(raw)[q] == ES || NumberTypes(raw)[q] == CS)
  {
    hide NumberTypes, ArabicDigit, EuropeanDigit;
    NumberTypeOf(raw, q - 1);
    NumberTypeOf(raw, q);
    NumberTypeOf(raw, q + 1);
  }

  lemma DigitLevel(raw: seq<Byte>, i: nat, arabic: bool)
    requires NoExplicitCodes(raw) && ParagraphLevel(raw) == 1 && i < |raw| && DigitOf(raw, i, arabic)
    ensures LineLevels(raw)[i] == 2
  {
    hide LineLevels, NoExplicitCodes, ParagraphLevel, LastStrong, LeftBefore;
    EveryDigitLevel(raw, i);
  }

  /** The last letter is a left-to-right one; so counts a mark at the start of a left-to-right paragraph. */
  predicate LeftBefore(raw: seq<Byte>, i: nat)
    requires i < |raw|
  {
    LastStrong(raw, i) == L || (LastStrong(raw, i) == ON && ParagraphLevel(raw) == 0 && raw[0] == NSM)
  }

  lemma {:induction false} MarksKeepLeft(raw: seq<Byte>, i: nat)
    requires i < |raw|
    ensures LastStrong(W1(PlainTypes(raw), ParagraphLevel(raw)), i) == L <==> LeftBefore(raw, i)
  {
    hide ParagraphLevel;
    if i > 0 {
      MarksKeepLeft(raw, i - 1);
    }
  }

  lemma {:induction false} WeakKeepsLeft(w1: seq<Byte>, i: nat)
    requires i < |w1|
    ensures LastStrong(W6(W5(W4(W3(W2(w1))))), i) == L <==> LastStrong(w1, i) == L
  {
    hide NumberBefore, NumberAfter;
    if i > 0 && !Strong(w1[i]) {
      WeakKeepsLeft(w1, i - 1);
    }
  }

  /** A number is at level 2, except a European one after a left-to-right letter in such a paragraph. */
  lemma EveryDigitLevel(raw: seq<Byte>, i: nat)
    requires NoExplicitCodes(raw) && i < |raw| && (raw[i] == EN || raw[i] == AN)
    ensures LineLevels(raw)[i] == if ParagraphLevel(raw) == 0 && raw[i] == EN && LeftBefore(raw, i) then 0 else 2
  {
    hide LineLevels, NumberTypes, NoExplicitCodes, ParagraphLevel, LastStrong, WeakTypes, LeftBefore;
    DigitType(raw, i);
    ResolvedLevel(raw, i);
  }

  lemma DigitType(raw: seq<Byte>, i: nat)
    requires i < |raw| && (raw[i] == EN || raw[i] == AN)
    ensures WeakTypes(raw)[i] ==
      if raw[i] == EN && LeftBefore(raw, i) then L else if ArabicDigit(raw, i) then AN else EN
  {
    hide NumberTypes, ParagraphLevel, LastStrong, W1, W2, W3, PlainTypes;
    NumberTypeOf(raw, i);
    WeakEnds(raw);
    var w1 := W1(PlainTypes(raw), ParagraphLevel(raw));
    assert NumberTypes(raw) == W3(W2(w1)) by {
      NumberTypesAre(raw);
    }
    MarksKeepLeft(raw, i);
    WeakKeepsLeft(w1, i);
  }

  lemma NumberTypesAre(raw: seq<Byte>)
    ensures NumberTypes(raw) == W3(W2(W1(PlainTypes(raw), ParagraphLevel(raw))))
  {
  }

  // ------------------------------------------------------------------
  // How it is shown

  /** The cells `[d, d + |part|)` hold the part. */
  predicate HoldsAt<T(==)>(s: seq<T>, part: seq<T>, d: nat) {
    d + |part| <= |s| && s[d..d + |part|] == part
  }

  /** With levels 1 and 2: where a stretch of level 2 behind the first 1 goes. */
  lemma StretchCell(lv: seq<int>, f: nat, x: nat, y: nat, s: nat)
    requires forall q :: 0 <= q < |lv| ==> lv[q] == 1 || lv[q] == 2
    requires f < |lv| && lv[f] == 1 && forall q :: 0 <= q < f ==> lv[q] == 2
    requires MaximalRun(lv, 2, x, y) && f < x <= s < y
    ensures s + f + |lv| >= x + y && s + f + |lv| - x - y < |lv|
    ensures FlipSource(lv, 1, 2, s + f + |lv| - x - y) == s
  {
    assert FlipSource(lv, 3, 2, s) == s && FirstAt(lv, 2, x, y) == x;
    hide FlipSource, FirstAt;
    var n := |lv|;
    assert MaximalRun(lv, 1, 0, n);
    FirstAtShape(lv, 1, 0, n);
    assert FirstAt(lv, 1, 0, n) == f;
    FlipStep(lv, 1, 2, 0, n, f, s + f + n - x - y);
    FlipStep(lv, 2, 2, x, y, x, x + y - 1 - s);
  }

  /** And a stretch of level 2 in front of the first 1 stays where it is, turned round. */
  lemma LeadingStretchCell(lv: seq<int>, f: nat, s: nat)
    requires forall q :: 0 <= q < |lv| ==> lv[q] == 1 || lv[q] == 2
    requires f <= |lv| && (f < |lv| ==> lv[f] == 1) && forall q :: 0 <= q < f ==> lv[q] == 2
    requires s < f
    ensures FlipSource(lv, 1, 2, f - 1 - s) == s
  {
    var n := |lv|;
    assert MaximalRun(lv, 1, 0, n);
    FirstAtShape(lv, 1, 0, n);
    assert FirstAt(lv, 1, 0, n) == f;
    FlipStep(lv, 1, 2, 0, n, f, f - 1 - s);
    assert MaximalRun(lv, 2, 0, f);
    FirstAtShape(lv, 2, 0, f);
    assert FirstAt(lv, 2, 0, f) == 0;
    FlipStep(lv, 2, 2, 0, f, 0, f - 1 - s);
  }

  /** Cells come from the line as the passes for levels 2 and 1 say, and are distinct. */
  lemma ShownCells(line: seq<BidiChar>, raw: seq<Byte>, mirror: nat -> nat)
    requires |line| == |raw| && NoExplicitCodes(raw) && DistinctColumns(line) && ParagraphLevel(raw) == 1
    ensures var lv, shown := LineLevels(raw), Shown(line, raw, mirror);
      && (forall i :: 0 <= i < |line| ==> shown[i] == Mirrored(line, lv, mirror)[FlipSource(lv, 1, 2, i)])
      && (forall i, j :: 0 <= i < j < |line| ==> shown[i] != shown[j])
      && (forall i :: 0 <= i < |line| ==> lv[i] == 1 || lv[i] == 2)
  {
    hide LineLevels, NoExplicitCodes, FlipSource, Mirrored, ParagraphLevel, HasRightToLeft, DistinctColumns;
    var lv := LineLevels(raw);
    var s := Mirrored(line, lv, mirror);
    RightToLeftParagraph(raw);
    PlainLevels(raw);
    MirroredColumns(line, lv, mirror);
    OrderIgnoresIdleLevels(lv, 2, 255, s);
    assert Shown(line, raw, mirror) == FlipOrder(lv, 2, s);
    forall i, j | 0 <= i < j < |line|
      ensures Shown(line, raw, mirror)[i] != Shown(line, raw, mirror)[j]
    {
      SourcesDistinct(lv, 1, 2, i, j);
    }
  }

  /** Something of level 1 stands before it. */
  predicate Preceded(lv: seq<int>, a: nat)
    requires a <= |lv|
  {
    exists k :: 0 <= k < a && lv[k] == 1
  }

  /** Such a line: levels 1 and 2, and what is shown comes from where the two passes say. */
  predicate ShownByPasses<T(==)>(lv: seq<int>, s: seq<T>, shown: seq<T>) {
    && |lv| == |s| == |shown|
    && (forall i :: 0 <= i < |lv| ==> lv[i] == 1 || lv[i] == 2)
    && forall i :: 0 <= i < |lv| ==> shown[i] == s[FlipSource(lv, 1, 2, i)]
  }

  lemma StretchHeld<T>(lv: seq<int>, s: seq<T>, shown: seq<T>, a: nat, e: nat)
    requires ShownByPasses(lv, s, shown)
    requires a < e <= |lv| && Preceded(lv, a) && forall q :: a <= q < e ==> lv[q] == 2
    ensures exists d: nat :: HoldsAt(shown, s[a..e], d)
  {
    hide FlipSource, End, Start;
    var n := |lv|;
    var f, x, y := FirstAt(lv, 1, 0, n), Start(lv, 2, a), End(lv, 2, a);
    FirstAtShape(lv, 1, 0, n);
    StartEndDelimitRun(lv, 2, a);
    StretchInside(lv, x, y, a, e);
    assert f < x;
    StretchCell(lv, f, x, y, a);
    var d := a + f + n - x - y;
    forall t | a <= t < e
      ensures d + t - a < n && shown[d + t - a] == s[t]
    {
      StretchCell(lv, f, x, y, t);
    }
    assert shown[d..d + (e - a)] == s[a..e];
    assert HoldsAt(shown, s[a..e], d);
  }

  lemma LeadingTurned<T>(lv: seq<int>, s: seq<T>, shown: seq<T>, a: nat, e: nat)
    requires ShownByPasses(lv, s, shown) && forall i, j :: 0 <= i < j < |shown| ==> shown[i] != shown[j]
    requires a < e <= |lv| && !Preceded(lv, a) && forall q :: a <= q < e ==> lv[q] == 2
    ensures (exists d: nat :: HoldsAt(shown, s[a..e], d)) <==> e == a + 1
  {
    hide FlipSource, HoldsAt;
    var f := FirstAt(lv, 1, 0, |lv|);
    FirstAtShape(lv, 1, 0, |lv|);
    assert e <= f;
    LeadingStretchCell(lv, f, a);
    if e == a + 1 {
      OneHeld(s, shown, a, f - 1 - a);
    } else {
      LeadingStretchCell(lv, f, a + 1);
      forall d: nat
        ensures !HoldsAt(shown, s[a..e], d)
      {
        NotBothWays(shown, s[a..e], d, f - 2 - a);
      }
    }
  }

  lemma OneHeld<T>(s: seq<T>, shown: seq<T>, a: nat, d: nat)
    requires a < |s| && d < |shown| && shown[d] == s[a]
    ensures HoldsAt(shown, s[a..a + 1], d)
  {
  }

  lemma {:induction false} StretchInside(lv: seq<int>, x: nat, y: nat, a: nat, e: nat)
    requires MaximalRun(lv, 2, x, y) && x <= a < y && a < e <= |lv| && forall q :: a <= q < e ==> lv[q] >= 2
    ensures e <= y
  {
  }

  lemma NotBothWays<T>(s: seq<T>, part: seq<T>, d: nat, g: nat)
    requires forall i, j :: 0 <= i < j < |s| ==> s[i] != s[j]
    requires |part| > 1 && g + 1 < |s| && s[g] == part[1] && s[g + 1] == part[0]
    ensures !HoldsAt(s, part, d)
  {
    if HoldsAt(s, part, d) {
      FirstCells(s, part, d);
    }
  }

  lemma FirstCells<T>(s: seq<T>, part: seq<T>, d: nat)
    requires |part| > 1 && HoldsAt(s, part, d)
    ensures s[d] == part[0] && s[d + 1] == part[1]
  {
    assert s[d..d + |part|][0] == s[d] && s[d..d + |part|][1] == s[d + 1];
  }

  /** A stretch of level 2 is not mirrored. */
  lemma StretchUnmirrored(line: seq<BidiChar>, lv: seq<Byte>, mirror: nat -> nat, a: nat, e: nat)
    requires |line| == |lv| && a <= e <= |lv| && forall q :: a <= q < e ==> lv[q] == 2
    ensures Mirrored(line, lv, mirror)[a..e] == line[a..e]
  {
  }

  /**
   In a right-to-left paragraph a number with its separators is shown in its order exactly if
   something of level 1 stands before it, or it is a single digit.
   */
  lemma NumberInOrderIff(line: seq<BidiChar>, raw: seq<Byte>, mirror: nat -> nat, a: nat, e: nat, arabic: bool)
    requires |line| == |raw| && NoExplicitCodes(raw) && DistinctColumns(line) && ParagraphLevel(raw) == 1
    requires NumberText(raw, a, e, arabic)
    ensures (exists d: nat :: HoldsAt(Shown(line, raw, mirror), line[a..e], d))
      <==> Preceded(LineLevels(raw), a) || e == a + 1
  {
    hide LineLevels, NoExplicitCodes, ParagraphLevel, Shown, DistinctColumns, HoldsAt, FlipSource, Mirrored, Preceded;
    NumberTextIsOneStretch(raw, a, e, arabic);
    ShownCells(line, raw, mirror);
    StretchUnmirrored(line, LineLevels(raw), mirror, a, e);
    var s, shown := Mirrored(line, LineLevels(raw), mirror), Shown(line, raw, mirror);
    if Preceded(LineLevels(raw), a) {
      StretchHeld(LineLevels(raw), s, shown, a, e);
    } else {
      LeadingTurned(LineLevels(raw), s, shown, a, e);
    }
  }

  /** A right-to-left letter before it is enough. */
  lemma LetterPrecedes(raw: seq<Byte>, a: nat, k: nat)
    requires NoExplicitCodes(raw) && k < a <= |raw| && (raw[k] == R || raw[k] == AL)
    ensures Preceded(LineLevels(raw), a)
  {
    hide LineLevels, NoExplicitCodes, ParagraphLevel;
    NumberTypeOf(raw, k);
    WeakEnds(raw);
    assert WeakTypes(raw)[k] == R;
    ResolvedLevel(raw, k);
  }

  /** A Hebrew letter and "1,5": the number stays together. */
  lemma CommaAfterLetter(line: seq<BidiChar>, mirror: nat -> nat)
    requires |line| == 4 && DistinctColumns(line)
    ensures LineLevels([R, EN, CS, EN]) == [1, 2, 2, 2]
    ensures Shown(line, [R, EN, CS, EN], mirror) == [line[1], line[2], line[3], line[0].(wc := mirror(line[0].wc))]
  {
    hide LineLevels, ParagraphLevel, Shown, FlipSource, DistinctColumns;
    var raw := [R, EN, CS, EN];
    CommaLevels();
    ShownCells(line, raw, mirror);
    var lv: seq<int> := [1, 2, 2, 2];
    CommaSources();
    assert Mirrored(line, LineLevels(raw), mirror) == [line[0].(wc := mirror(line[0].wc)), line[1], line[2], line[3]];
  }

  lemma CommaLevels()
    ensures ParagraphLevel([R, EN, CS, EN]) == 1 && LineLevels([R, EN, CS, EN]) == [1, 2, 2, 2]
  {
    hide LineLevels;
    var raw := [R, EN, CS, EN];
    assert LastStrong(raw, 0) == R && LastStrong(raw, 1) == R;
    assert LastStrong(raw, 2) == R && LastStrong(raw, 3) == R;
    assert NumberText(raw, 1, 4, false);
    NumberTextIsOneStretch(raw, 1, 4, false);
    LetterPrecedes(raw, 1, 0);
  }

  lemma CommaSources()
    ensures var lv: seq<int> := [1, 2, 2, 2];
      FlipSource(lv, 1, 2, 0) == 1 && FlipSource(lv, 1, 2, 1) == 2 && FlipSource(lv, 1, 2, 2) == 3
      && FlipSource(lv, 1, 2, 3) == 0
  {
    hide FlipSource, FirstAt;
    var lv: seq<int> := [1, 2, 2, 2];
    assert MaximalRun(lv, 2, 1, 4) && MaximalRun(lv, 1, 0, 4);
    StretchCell(lv, 0, 1, 4, 1);
    StretchCell(lv, 0, 1, 4, 2);
    StretchCell(lv, 0, 1, 4, 3);
    FirstAtShape(lv, 1, 0, 4);
    FlipStep(lv, 1, 2, 0, 4, 0, 3);
    LowCellsFixed(lv, 2, 2, 0);
  }

  // ------------------------------------------------------------------
  // Rules P2, P3, N2, I1, I2 and L1

  /** The paragraph is right-to-left exactly if its first letter is. */
  lemma {:induction false} ParagraphLevelMeans(raw: seq<Byte>)
    ensures ParagraphLevel(raw) == 1 <==>
      exists k :: 0 <= k < |raw| && (raw[k] == R || raw[k] == AL) && forall q :: 0 <= q < k ==> !Strong(raw[q])
  {
    if raw != [] && !Strong(raw[0]) {
      ParagraphLevelMeans(raw[1..]);
      if ParagraphLevel(raw) == 1 {
        var k :| 0 <= k < |raw[1..]| && (raw[1..][k] == R || raw[1..][k] == AL)
                 && forall q :: 0 <= q < k ==> !Strong(raw[1..][q]);
        assert raw[k + 1] == raw[1..][k];
        assert forall q :: 0 < q < k + 1 ==> raw[q] == raw[1..][q - 1];
      } else {
        forall k | 0 <= k < |raw| && (raw[k] == R || raw[k] == AL)
          ensures exists q :: 0 <= q < k && Strong(raw[q])
        {
          var q :| 0 <= q < k - 1 && Strong(raw[1..][q]) by {
            assert raw[1..][k - 1] == raw[k];
          }
          assert raw[q + 1] == raw[1..][q];
        }
      }
    }
  }

  /** Only spaces between it and a separator or the end of the line. */
  predicate SpacesUpTo(raw: seq<Byte>, i: nat, e: nat) {
    && i <= e <= |raw|
    && (forall q :: i <= q < e ==> raw[q] == WS)
    && (e < |raw| ==> raw[e] == B || raw[e] == S)
  }

  /** What goes back to the paragraph level: separators, and spaces with nothing else before one or the end. */
  lemma ResetsIff(raw: seq<Byte>, i: nat)
    requires i < |raw|
    ensures Resets(raw, i) <==> exists e: nat :: SpacesUpTo(raw, i, e)
  {
    hide SpaceEnd;
    SpaceEndShape(raw, i);
    if Resets(raw, i) {
      assert SpacesUpTo(raw, i, SpaceEnd(raw, i));
    } else if e: nat :| SpacesUpTo(raw, i, e) {
      SpaceEndIs(raw, i, e);
    }
  }

  lemma {:induction false} SpaceEndShape(raw: seq<Byte>, i: nat)
    requires i <= |raw|
    ensures var e := SpaceEnd(raw, i);
      (e < |raw| ==> raw[e] != WS) && forall q :: i <= q < e ==> raw[q] == WS
    decreases |raw| - i
  {
    if i < |raw| && raw[i] == WS {
      SpaceEndShape(raw, i + 1);
    }
  }

  /** Every level, from the types after rule N1: what is still neutral has the paragraph's direction. */
  lemma EveryLevel(raw: seq<Byte>, i: nat)
    requires NoExplicitCodes(raw) && i < |raw|
    ensures var p, t := ParagraphLevel(raw), N1(WeakTypes(raw))[i];
      LineLevels(raw)[i] == if (exists e: nat :: SpacesUpTo(raw, i, e)) || !Resolved(t) then p else LevelOf(t, p)
  {
    var p := ParagraphLevel(raw);
    hide ResolveWeak, LineLevels, ImplicitLevels, EmbeddingLevels, ParagraphLevel, NoExplicitCodes, PlainTypes, N1,
         Resets, SpacesUpTo;
    ResetsIff(raw, i);
    PlainStart(raw, p);
    LevelsFollowTypes(raw, p, i);
    LevelAfterL1(raw, i);
    assert ResolvedTypes(raw, p)[i] == N2At(N1(WeakTypes(raw)), EmbeddingLevels(raw, p), i);
  }

  // ------------------------------------------------------------------
  // Rule N1

  predicate NeutralRun(ts: seq<Byte>, a: nat, e: nat) {
    && a < e <= |ts|
    && (forall q :: a <= q < e ==> ts[q] == ON)
    && (a > 0 ==> ts[a - 1] != ON)
    && (e < |ts| ==> ts[e] != ON)
  }

  /** L for a left-to-right letter, R for a right-to-left one or a number. */
  predicate Gives(t: Byte, direction: Byte) {
    (direction == L && t == L) || (direction == R && (t == R || t == EN || t == AN))
  }

  /**
   A run of neutrals inside the line takes the direction that both of its neighbours give.  At
   either end of the line a single neutral takes that of its one neighbour, and a longer run none.
   */
  lemma NeutralsTake(ts: seq<Byte>, a: nat, e: nat, q: nat, direction: Byte)
    requires NeutralRun(ts, a, e) && a <= q < e && (direction == L || direction == R)
    ensures N1(ts)[q] == L || N1(ts)[q] == R || N1(ts)[q] == ON
    ensures N1(ts)[q] == direction <==>
      if 0 < a && e < |ts| then Gives(ts[a - 1], direction) && Gives(ts[e], direction)
      else if e == a + 1 && 0 < a then Gives(ts[a - 1], direction)
      else e == a + 1 && e < |ts| && Gives(ts[e], direction)
  {
    hide NeutralStart, NeutralEnd;
    NeutralRunShared(ts, a, e, q);
    assert N1(ts)[q] == N1At(ts, q);
  }

  // ------------------------------------------------------------------
  // Embedding and override codes

  /** A code raises the level by one or two to the parity of its direction, and sets or clears the override. */
  lemma CodeMeans(e: Explicit, t: Byte, p: Byte)
    requires (t == RLE || t == RLO || t == LRE || t == LRO) && e.embedding < 254
    ensures var e' := ExplicitStep(e, t, p);
      && e.embedding < e'.embedding <= e.embedding + 2
      && e'.embedding % 2 == (if t == RLE || t == RLO then 1 else 0)
      && e'.override == (if t == RLO then R else if t == LRO then L else ON)
  {
    hide SetOverrideBits, LevelBeforeRun;
  }

  /** An override is marked in the top two bits of a code's level, and clearing them gives the level again. */
  lemma OverrideMarks(level: Byte, override: Byte)
    requires level < 64
    ensures SetOverrideBits(level, override)
         == if override == R then level + 0x40 else if override == L then level + 0x80 else level
    ensures Masked(level) == level && Masked(SetOverrideBits(level, override)) == level
  {
  }

  /** Any other character has the level reached, and the type of the override if there is one. */
  lemma CharacterMeans(e: Explicit, t: Byte, p: Byte)
    requires !ExplicitCode(t)
    ensures var e' := ExplicitStep(e, t, p);
      && e'.embedding == e.embedding && e'.override == e.override
      && e'.levels == e.levels + [e.embedding]
      && e'.types == e.types + [if e.override != ON then e.override else if t == WS || t == S then ON else t]
  {
  }

  function Repeat(level: Byte, n: nat): (r: seq<Byte>)
    ensures |r| == n && forall i :: 0 <= i < n ==> r[i] == level
  {
    seq(n, _ => level)
  }

  /** Characters between codes leave the scan where it is. */
  lemma {:induction false} ScanGoesOn(raw: seq<Byte>, more: seq<Byte>, p: Byte)
    requires NoExplicitCodes(more)
    ensures var e, e' := ExplicitRun(raw, p), ExplicitRun(raw + more, p);
      && e'.embedding == e.embedding && e'.override == e.override
      && e'.levels == e.levels + Repeat(e.embedding, |more|)
  {
    if more == [] {
      assert raw + more == raw;
    } else {
      var init := more[..|more| - 1];
      assert (raw + more)[..|raw + more| - 1] == raw + init;
      ScanGoesOn(raw, init, p);
    }
  }

  /** The level before a run of equal ones, if there is any. */
  lemma {:induction false} BeforeRun(before: seq<Byte>, level: Byte, n: nat)
    requires n > 0 && (before == [] || before[|before| - 1] != level)
    ensures LevelBeforeRun(before + Repeat(level, n)) == if before == [] then -1 else before[|before| - 1]
  {
    var s := before + Repeat(level, n);
    if n > 1 {
      assert s[..|s| - 1] == before + Repeat(level, n - 1);
      BeforeRun(before, level, n - 1);
    }
  }

  /**
   The end of a first embedding or override takes the scan back to where it was exactly if the
   code is the first character of the line; otherwise the level stays.
   */
  lemma EndOfCodeIff(before: seq<Byte>, code: Byte, inside: seq<Byte>, p: Byte)
    requires NoExplicitCodes(before) && NoExplicitCodes(inside) && (p == 0 || p == 1)
    requires ExplicitCode(code) && code != PDF
    ensures var e := ExplicitRun(before + [code] + inside + [PDF], p);
      && (e.embedding == p && e.override == ON <==> before == [])
      && (before != [] ==> e.embedding == ExplicitRun(before + [code], p).embedding && e.override == L)
  {
    hide ExplicitRun, LevelBeforeRun;
    var whole := before + [code] + inside + [PDF];
    ScanBegins(p);
    ScanGoesOn([], before, p);
    assert [] + before == before;
    ScanStep(before + [code], p);
    assert (before + [code])[..|before|] == before;
    ScanGoesOn(before + [code], inside, p);
    ScanStep(whole, p);
    assert whole[..|whole| - 1] == before + [code] + inside;
    var first, e := ExplicitRun(before + [code], p), ExplicitRun(before + [code] + inside, p);
    var l := first.embedding;
    CodeMeans(ExplicitRun(before, p), code, p);
    OneMoreOf(Repeat(p, |before|), l, |inside|);
    assert e.levels == Repeat(p, |before|) + [l] + Repeat(l, |inside|);
    BeforeRun(Repeat(p, |before|), l, |inside| + 1);
  }

  lemma ScanBegins(p: Byte)
    ensures ExplicitRun([], p) == Explicit([], [], p, ON, false)
  {
  }

  lemma ScanStep(raw: seq<Byte>, p: Byte)
    requires raw != []
    ensures ExplicitRun(raw, p) == ExplicitStep(ExplicitRun(raw[..|raw| - 1], p), raw[|raw| - 1], p)
  {
  }

  lemma OneMoreOf(a: seq<Byte>, level: Byte, n: nat)
    ensures a + [level] + Repeat(level, n) == a + Repeat(level, n + 1)
  {
  }
}
