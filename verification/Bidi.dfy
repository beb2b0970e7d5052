/** One line. */
module Bidi {
  import opened Bytes
  import opened BidiChars
  import opened BidiRules
  import opened BidiFlip

  // The display order of one terminal line: `do_bidi` as a whole.

  // ------------------------------------------------------------------
  // Character types

  /** One row of the type table: code points `first` to `last` have type `kind`. */
  datatype TypeRange = TypeRange(first: nat, last: nat, kind: Byte)

  predicate ValidTable(table: seq<TypeRange>) {
    && (forall i :: 0 <= i < |table| ==> table[i].first <= table[i].last)
    && (forall i, j :: 0 <= i < j < |table| ==> table[i].last < table[j].first)
  }

  /** The type of a code point: that of the row it is in, or ON if it is in none. */
  function TypeOf(table: seq<TypeRange>, ch: nat): Byte {
    if table == [] then ON
    else if table[0].first <= ch <= table[0].last then table[0].kind
    else TypeOf(table[1..], ch)
  }

  lemma {:induction false} TypeOfRow(table: seq<TypeRange>, ch: nat, k: nat)
    requires ValidTable(table) && k < |table| && table[k].first <= ch <= table[k].last
    ensures TypeOf(table, ch) == table[k].kind
  {
    if k > 0 {
      assert table[1..][k - 1] == table[k];
      TypeOfRow(table[1..], ch, k - 1);
    }
  }

  lemma {:induction false} TypeOfNone(table: seq<TypeRange>, ch: nat)
    requires forall k :: 0 <= k < |table| ==> !(table[k].first <= ch <= table[k].last)
    ensures TypeOf(table, ch) == ON
  {
    if table != [] {
      TypeOfNone(table[1..], ch);
    }
  }

  /** Binary search in a table sorted by code point. */
  method GetType(table: seq<TypeRange>, ch: nat) returns (t: Byte)
    requires ValidTable(table)
    ensures t == TypeOf(table, ch)
  {
    var i, j := -1, |table|;
    while j - i > 1
      invariant -1 <= i < j <= |table|
      invariant forall q :: 0 <= q <= i ==> table[q].last < ch
      invariant forall q :: j <= q < |table| ==> ch < table[q].first
      decreases j - i
    {
      var k := (i + j) / 2;
      if ch < table[k].first {
        j := k;
      } else if ch > table[k].last {
        i := k;
      } else {
        TypeOfRow(table, ch, k);
        return table[k].kind;
      }
    }
    TypeOfNone(table, ch);
    return ON;
  }

  /** The types of a line before any rule. */
  function RawTypes(table: seq<TypeRange>, line: seq<BidiChar>): (raw: seq<Byte>)
    ensures |raw| == |line|
  {
    seq(|line|, i requires 0 <= i < |line| => TypeOf(table, line[i].wc))
  }

  method Classify(table: seq<TypeRange>, line: array<BidiChar>) returns (raw: seq<Byte>)
    requires ValidTable(table)
    ensures raw == RawTypes(table, line[..])
  {
    raw := [];
    var i := 0;
    while i < line.Length
      invariant 0 <= i <= line.Length && |raw| == i
      invariant forall q :: 0 <= q < i ==> raw[q] == TypeOf(table, line[q].wc)
    {
      var t := GetType(table, line[i].wc);
      raw := raw + [t];
      i := i + 1;
    }
  }

  // ------------------------------------------------------------------
  // Paragraph level and explicit codes

  predicate HasRightToLeft(raw: seq<Byte>) {
    exists i :: 0 <= i < |raw| && (raw[i] == R || raw[i] == AL)
  }

  /** 1 if the first of L, R and AL on the line is R or AL, otherwise 0. */
  function ParagraphLevel(raw: seq<Byte>): (p: Byte)
    ensures p == 0 || p == 1
  {
    if raw == [] then 0
    else if raw[0] == R || raw[0] == AL then 1
    else if raw[0] == L then 0
    else ParagraphLevel(raw[1..])
  }

  method FindParagraphLevel(raw: seq<Byte>) returns (p: Byte)
    ensures p == ParagraphLevel(raw)
  {
    p := 0;
    var i := 0;
    while i < |raw|
      invariant 0 <= i <= |raw| && p == 0
      invariant ParagraphLevel(raw) == ParagraphLevel(raw[i..])
    {
      if raw[i] == R || raw[i] == AL {
        return 1;
      } else if raw[i] == L {
        return 0;
      }
      i := i + 1;
    }
  }

  /** Where the scan over explicit codes stands: what it has stored so far and its three variables. */
  datatype Explicit = Explicit(types: seq<Byte>, levels: seq<Byte>, embedding: Byte, override: Byte, bover: bool)

  function LeastGreaterOdd(x: Byte): Byte {
    if x % 2 == 0 then Raised(x, 1) else Raised(x, 2)
  }

  function LeastGreaterEven(x: Byte): Byte {
    if x % 2 == 0 then Raised(x, 2) else Raised(x, 1)
  }

  /** Marks the override in the top two bits of a level. */
  function SetOverrideBits(level: Byte, override: Byte): Byte {
    if override == R then (if (level / 64) % 2 == 0 then Raised(level, 64) else level)
    else if override == L then (if level / 128 == 0 then Raised(level, 128) else level)
    else level
  }

  /** The value before the last run of equal levels, or -1. */
  function LevelBeforeRun(levels: seq<Byte>): (r: int)
    ensures r == -1 || 0 <= r < 256
  {
    if |levels| < 2 then -1
    else if levels[|levels| - 2] == levels[|levels| - 1] then LevelBeforeRun(levels[..|levels| - 1])
    else levels[|levels| - 2]
  }

  function ExplicitStep(e: Explicit, t: Byte, p: Byte): Explicit {
    if t == RLE || t == LRE then
      var level := if t == RLE then LeastGreaterOdd(e.embedding) else LeastGreaterEven(e.embedding);
      Explicit(e.types + [t], e.levels + [SetOverrideBits(level, e.override)], level, ON, e.bover)
    else if t == RLO then
      var level := LeastGreaterOdd(e.embedding);
      Explicit(e.types + [R], e.levels + [level], level, R, true)
    else if t == LRO then
      var level := LeastGreaterEven(e.embedding);
      Explicit(e.types + [L], e.levels + [level], level, L, true)
    else if t == PDF then
      if LevelBeforeRun(e.levels) == -1 then
        Explicit(e.types + [t], e.levels + [p], p, ON, e.bover)
      else
        var level := e.embedding % 64;
        Explicit(e.types + [t], e.levels + [level], level, e.embedding - level, e.bover)
    else
      var own := if t == WS || t == S then ON else t;
      Explicit(e.types + [if e.override == ON then own else e.override],
               e.levels + [e.embedding], e.embedding, e.override, e.bover)
  }

  function ExplicitRun(raw: seq<Byte>, p: Byte): (e: Explicit)
    ensures |e.types| == |e.levels| == |raw|
  {
    if raw == [] then Explicit([], [], p, ON, false)
    else ExplicitStep(ExplicitRun(raw[..|raw| - 1], p), raw[|raw| - 1], p)
  }

  method GetPreviousLevel(levels: array<Byte>, from: nat) returns (r: int)
    requires from <= levels.Length
    ensures r == LevelBeforeRun(levels[..from])
  {
    if from == 0 {
      return -1;
    }
    var i: int := from - 1;
    var current := levels[i];
    while i >= 0 && levels[i] == current
      invariant -1 <= i < from
      invariant i == from - 1 || levels[i + 1] == current
      invariant LevelBeforeRun(levels[..from]) == LevelBeforeRun(levels[..if i == from - 1 then from else i + 2])
    {
      assert i + 2 <= from ==> levels[..i + 2][..i + 1] == levels[..i + 1];
      i := i - 1;
    }
    if i >= 0 {
      return levels[i];
    }
    return -1;
  }

  /** One character of the scan; `e` is where the scan stands before it. */
  method ApplyExplicitStep(raw: seq<Byte>, p: Byte, types: array<Byte>, levels: array<Byte>, i: nat,
                           embedding: Byte, override: Byte, bover: bool, ghost e: Explicit)
    returns (embedding': Byte, override': Byte, bover': bool)
    requires types != levels && i < types.Length == levels.Length == |raw|
    requires |e.types| == |e.levels| == i
    requires types[..i] == e.types && levels[..i] == e.levels
    requires embedding == e.embedding && override == e.override && bover == e.bover
    modifies types, levels
    ensures var e' := ExplicitStep(e, raw[i], p);
      && types[..i + 1] == e'.types && levels[..i + 1] == e'.levels
      && embedding' == e'.embedding && override' == e'.override && bover' == e'.bover
  {
    embedding', override', bover' := embedding, override, bover;
    var tempType := raw[i];
    if tempType == RLE {
      embedding' := LeastGreaterOdd(embedding);
      levels[i] := SetOverrideBits(embedding', override);
      override' := ON;
    } else if tempType == LRE {
      embedding' := LeastGreaterEven(embedding);
      levels[i] := SetOverrideBits(embedding', override);
      override' := ON;
    } else if tempType == RLO {
      embedding' := LeastGreaterOdd(embedding);
      levels[i] := embedding';
      tempType, override', bover' := R, R, true;
    } else if tempType == LRO {
      embedding' := LeastGreaterEven(embedding);
      levels[i] := embedding';
      tempType, override', bover' := L, L, true;
    } else if tempType == PDF {
      var prevlevel := GetPreviousLevel(levels, i);
      if prevlevel == -1 {
        embedding', override' := p, ON;
      } else {
        override' := embedding - embedding % 64;
        embedding' := embedding % 64;
      }
      levels[i] := embedding';
    } else {
      levels[i] := embedding;
      if tempType == WS || tempType == S {
        tempType := ON;
      }
      if override != ON {
        tempType := override;
      }
    }
    types[i] := tempType;
  }

  /** The levels once the override bits have been cleared, which happens only if one was seen. */
  function EmbeddingLevels(raw: seq<Byte>, p: Byte): (levels: seq<Byte>)
    ensures |levels| == |raw|
  {
    var e := ExplicitRun(raw, p);
    if e.bover then seq(|raw|, i requires 0 <= i < |raw| => Masked(e.levels[i])) else e.levels
  }

  function Masked(level: Byte): Byte {
    level % 64
  }

  /** X9: codes count as boundary neutrals from here on. */
  function X9At(ts: seq<Byte>, i: nat): Byte
    requires i < |ts|
  {
    if ts[i] == RLE || ts[i] == LRE || ts[i] == RLO || ts[i] == LRO || ts[i] == PDF then BN else ts[i]
  }

  function X9(ts: seq<Byte>): (r: seq<Byte>)
    ensures |r| == |ts|
  {
    seq(|ts|, i requires 0 <= i < |ts| => X9At(ts, i))
  }

  method ApplyX9(types: array<Byte>)
    modifies types
    ensures types[..] == X9(old(types[..]))
  {
    ghost var ts := types[..];
    var i := 0;
    while i < types.Length
      invariant 0 <= i <= types.Length
      invariant forall q :: 0 <= q < i ==> types[q] == X9At(ts, q)
      invariant forall q :: i <= q < types.Length ==> types[q] == ts[q]
    {
      if types[i] == RLE || types[i] == LRE || types[i] == RLO || types[i] == LRO || types[i] == PDF {
        types[i] := BN;
      }
      i := i + 1;
    }
  }

  method MaskLevels(levels: array<Byte>)
    modifies levels
    ensures forall q :: 0 <= q < levels.Length ==> levels[q] == Masked(old(levels[q]))
  {
    var i := 0;
    while i < levels.Length
      invariant 0 <= i <= levels.Length
      invariant forall q :: 0 <= q < i ==> levels[q] == Masked(old(levels[q]))
      invariant forall q :: i <= q < levels.Length ==> levels[q] == old(levels[q])
    {
      levels[i] := Masked(levels[i]);
      i := i + 1;
    }
  }

  /** Rules X1 to X8 as far as the program implements them. */
  method ApplyExplicit(raw: seq<Byte>, p: Byte, types: array<Byte>, levels: array<Byte>)
    requires types != levels && types.Length == levels.Length == |raw|
    modifies types, levels
    ensures types[..] == ExplicitRun(raw, p).types
    ensures levels[..] == EmbeddingLevels(raw, p)
  {
    var embedding, override, bover := p, ON, false;
    var i := 0;
    while i < |raw|
      invariant 0 <= i <= |raw|
      invariant types[..i] == ExplicitRun(raw[..i], p).types
      invariant levels[..i] == ExplicitRun(raw[..i], p).levels
      invariant embedding == ExplicitRun(raw[..i], p).embedding
      invariant override == ExplicitRun(raw[..i], p).override
      invariant bover == ExplicitRun(raw[..i], p).bover
    {
      assert raw[..i + 1][..i] == raw[..i];
      embedding, override, bover :=
        ApplyExplicitStep(raw, p, types, levels, i, embedding, override, bover, ExplicitRun(raw[..i], p));
      i := i + 1;
    }
    assert raw[..|raw|] == raw && types[..|raw|] == types[..] && levels[..|raw|] == levels[..];
    if bover {
      MaskLevels(levels);
    }
  }

  // ------------------------------------------------------------------
  // All the rules in order

  function ResolveWeak(ts: seq<Byte>, p: Byte): (r: seq<Byte>)
    ensures |r| == |ts|
  {
    W7(W6(W5(W4(W3(W2(W1(ts, p)))))))
  }

  /** The types after rule N2. */
  function ResolvedTypes(raw: seq<Byte>, p: Byte): (ts: seq<Byte>)
    ensures |ts| == |raw|
  {
    N2(N1(ResolveWeak(X9(ExplicitRun(raw, p).types), p)), EmbeddingLevels(raw, p))
  }

  /** The levels after rules I1 and I2 ... */
  function ImplicitLevels(raw: seq<Byte>, p: Byte): (levels: seq<Byte>)
    ensures |levels| == |raw|
  {
    Implicit(ResolvedTypes(raw, p), EmbeddingLevels(raw, p))
  }

  /** ... and after rule L1. */
  function LineLevels(raw: seq<Byte>): (levels: seq<Byte>)
    ensures |levels| == |raw|
  {
    var p := ParagraphLevel(raw);
    L1(raw, ImplicitLevels(raw, p), p)
  }

  /** A character of odd level is shown by its mirror glyph. */
  function Mirrored(line: seq<BidiChar>, levels: seq<Byte>, mirror: nat -> nat): (r: seq<BidiChar>)
    requires |line| == |levels|
    ensures |r| == |line|
  {
    seq(|line|, i requires 0 <= i < |line| =>
      if levels[i] % 2 == 1 then line[i].(wc := mirror(line[i].wc)) else line[i])
  }

  method ApplyMirror(line: array<BidiChar>, levels: array<Byte>, mirror: nat -> nat)
    requires line.Length == levels.Length
    modifies line
    ensures line[..] == Mirrored(old(line[..]), levels[..], mirror)
  {
    ghost var was, lv := line[..], levels[..];
    var i := 0;
    while i < line.Length
      invariant 0 <= i <= line.Length && levels[..] == lv
      invariant forall q :: 0 <= q < i ==> line[q] == Mirrored(was, lv, mirror)[q]
      invariant forall q :: i <= q < line.Length ==> line[q] == was[q]
    {
      if levels[i] % 2 == 1 {
        line[i] := line[i].(wc := mirror(line[i].wc));
      }
      i := i + 1;
    }
  }

  /** What the program displays, ... */
  function Displayed(line: seq<BidiChar>, levels: seq<Byte>, mirror: nat -> nat): (r: seq<BidiChar>)
    requires |line| == |levels|
    ensures |r| == |line|
  {
    FlipOrder(levels, 255, Mirrored(line, levels, mirror))
  }

  /** ... and what rule L2 would make of the same levels. */
  function ByRule(line: seq<BidiChar>, levels: seq<Byte>, mirror: nat -> nat): (r: seq<BidiChar>)
    requires |line| == |levels|
    ensures |r| == |line|
  {
    RuleOrder(levels, 255, Mirrored(line, levels, mirror))
  }

  /** What the program leaves: a line without R or AL is not touched at all. */
  function Shown(line: seq<BidiChar>, raw: seq<Byte>, mirror: nat -> nat): (r: seq<BidiChar>)
    requires |line| == |raw|
    ensures |r| == |line|
  {
    if HasRightToLeft(raw) then Displayed(line, LineLevels(raw), mirror) else line
  }

  /** Fills in the levels of a line that has some right-to-left character. */
  method ResolveLevels(raw: seq<Byte>, levels: array<Byte>)
    requires levels.Length == |raw| > 0
    modifies levels
    ensures levels[..] == LineLevels(raw)
  {
    var types := new Byte[|raw|];
    var p := FindParagraphLevel(raw);
    ApplyExplicit(raw, p, types, levels);
    ApplyX9(types);
    ResolveTypes(types, p);
    ApplyN1(types);
    ApplyN2(types, levels);
    ApplyImplicit(types, levels);
    ApplyL1(raw, levels, p);
  }

  method ResolveTypes(types: array<Byte>, p: Byte)
    requires types.Length > 0
    modifies types
    ensures types[..] == ResolveWeak(old(types[..]), p)
  {
    ApplyW1(types, p);
    ApplyW2(types);
    ApplyW3(types);
    ApplyW4(types);
    ApplyW5(types);
    ApplyW6(types);
    ApplyW7(types);
  }

  method SeesRightToLeft(raw: seq<Byte>) returns (yes: bool)
    ensures yes == HasRightToLeft(raw) && (yes ==> raw != [])
  {
    yes := false;
    var i := 0;
    while i < |raw|
      invariant 0 <= i <= |raw| && !yes
      invariant forall q :: 0 <= q < i ==> raw[q] != R && raw[q] != AL
    {
      if raw[i] == R || raw[i] == AL {
        return true;
      }
      i := i + 1;
    }
  }

  /**
   Reorders a line in place.  Code points are classified once, before the line changes.
   */
  method DoBidi(line: array<BidiChar>, table: seq<TypeRange>, mirror: nat -> nat) returns (direction: Byte)
    requires ValidTable(table)
    modifies line
    ensures var raw := RawTypes(table, old(line[..]));
      && direction == (if HasRightToLeft(raw) then R else L)
      && line[..] == Shown(old(line[..]), raw, mirror)
      && (NoExplicitCodes(raw) && DistinctColumns(old(line[..])) ==>
            (line[..] == ByRule(old(line[..]), LineLevels(raw), mirror)
             <==> ShowsByRule(old(line[..]), raw, mirror)))
    ensures multiset(Identities(line[..])) == multiset(Identities(old(line[..])))
  {
    hide FlipOrder, LineLevels, Mirrored, ByRule, ShowsByRule, DistinctColumns, NoExplicitCodes, HasRightToLeft;
    hide RawTypes, ValidTable, Identities;
    var raw := Classify(table, line);
    ghost var was := line[..];
    if NoExplicitCodes(raw) && DistinctColumns(was) {
      DisplayFollowsRuleIff(was, raw, mirror);
    }
    var yes := SeesRightToLeft(raw);
    if !yes {
      return L;
    }
    var levels := new Byte[|raw|];
    ResolveLevels(raw, levels);
    ApplyMirror(line, levels, mirror);
    ghost var mirrored := line[..];
    var max := Reorder(line, levels);
    OrderIgnoresIdleLevels(levels[..], max, 255, mirrored);
    SameIdentities(line[..], mirrored);
    MirrorKeepsIdentities(was, levels[..], mirror);
    return R;
  }

  lemma MirrorKeepsIdentities(line: seq<BidiChar>, levels: seq<Byte>, mirror: nat -> nat)
    requires |line| == |levels|
    ensures Identities(Mirrored(line, levels, mirror)) == Identities(line)
  {
  }

  /** What a cell keeps through mirroring and reordering. */
  function Identity(c: BidiChar): (nat, nat) {
    (c.origwc, c.index)
  }

  function Identities(s: seq<BidiChar>): (r: seq<(nat, nat)>)
    ensures |r| == |s|
  {
    seq(|s|, i requires 0 <= i < |s| => Identity(s[i]))
  }

  /** Taking one cell out of a line takes its identity out of the identities. */
  lemma IdentityOut(s: seq<BidiChar>, k: nat)
    requires k < |s|
    ensures multiset(s) == multiset(s[..k] + s[k + 1..]) + multiset{s[k]}
    ensures multiset(Identities(s)) == multiset(Identities(s[..k] + s[k + 1..])) + multiset{Identity(s[k])}
  {
    assert s == s[..k] + [s[k]] + s[k + 1..];
    assert Identities(s) == Identities(s[..k]) + [Identity(s[k])] + Identities(s[k + 1..]);
    assert Identities(s[..k] + s[k + 1..]) == Identities(s[..k]) + Identities(s[k + 1..]);
  }

  lemma {:induction false} SameIdentities(a: seq<BidiChar>, b: seq<BidiChar>)
    requires multiset(a) == multiset(b)
    ensures multiset(Identities(a)) == multiset(Identities(b))
  {
    if a == [] {
      assert |multiset(b)| == |b|;
    } else {
      assert a[0] in multiset(b);
      var k :| 0 <= k < |b| && b[k] == a[0];
      IdentityOut(a, 0);
      IdentityOut(b, k);
      assert a[..0] + a[1..] == a[1..];
      assert multiset(a[1..]) == multiset(a) - multiset{a[0]};
      assert multiset(b[..k] + b[k + 1..]) == multiset(b) - multiset{b[k]};
      SameIdentities(a[1..], b[..k] + b[k + 1..]);
    }
  }

  // ------------------------------------------------------------------
  // Lines without embedding or override codes

  predicate ExplicitCode(t: Byte) {
    t == LRE || t == LRO || t == RLE || t == RLO || t == PDF
  }

  predicate NoExplicitCodes(raw: seq<Byte>) {
    forall i :: 0 <= i < |raw| ==> !ExplicitCode(raw[i])
  }

  /** The types the weak rules start from on such a line. */
  function PlainTypes(raw: seq<Byte>): (r: seq<Byte>)
    ensures |r| == |raw|
  {
    seq(|raw|, i requires 0 <= i < |raw| => if raw[i] == WS || raw[i] == S then ON else raw[i])
  }

  /** Without codes every character is at the paragraph level. */
  lemma {:induction false} PlainRun(raw: seq<Byte>, p: Byte)
    requires NoExplicitCodes(raw)
    ensures var e := ExplicitRun(raw, p);
      && e.types == PlainTypes(raw) && e.embedding == p && e.override == ON && !e.bover
      && forall i :: 0 <= i < |raw| ==> e.levels[i] == p
  {
    if raw != [] {
      PlainRun(raw[..|raw| - 1], p);
    }
  }

  /** On a line without codes: what the resolved types say about the levels before L1. */
  lemma LevelsFollowTypes(raw: seq<Byte>, p: Byte, i: nat)
    requires NoExplicitCodes(raw) && (p == 0 || p == 1) && i < |raw|
    ensures var t, level := ResolvedTypes(raw, p)[i], ImplicitLevels(raw, p)[i];
      && p <= level <= 2
      && (t == R ==> level == 1)
      && (t == L ==> level == 2 * p)
      && (t == EN || t == AN ==> level == 2)
      && (t != R && t != L && t != EN && t != AN ==> level == p)
      && t != ON
  {
    hide ResolveWeak, N1, EmbeddingLevels, NoExplicitCodes;
    PlainStart(raw, p);
    var levels := EmbeddingLevels(raw, p);
    assert ResolvedTypes(raw, p)[i] == N2At(N1(ResolveWeak(PlainTypes(raw), p)), levels, i);
    assert ImplicitLevels(raw, p)[i] == ImplicitAt(ResolvedTypes(raw, p), levels, i);
  }

  /** What rules W1 to N2 start from on such a line. */
  lemma PlainStart(raw: seq<Byte>, p: Byte)
    requires NoExplicitCodes(raw)
    ensures forall i :: 0 <= i < |raw| ==> EmbeddingLevels(raw, p)[i] == p
    ensures ResolvedTypes(raw, p) == N2(N1(ResolveWeak(PlainTypes(raw), p)), EmbeddingLevels(raw, p))
  {
    hide ResolveWeak, N1, N2, ExplicitRun;
    PlainRun(raw, p);
    PlainTypesStay(raw);
  }

  /** Rule X9 finds no codes. */
  lemma PlainTypesStay(raw: seq<Byte>)
    requires NoExplicitCodes(raw)
    ensures X9(PlainTypes(raw)) == PlainTypes(raw)
  {
  }

  lemma LevelAfterL1(raw: seq<Byte>, i: nat)
    requires i < |raw|
    ensures LineLevels(raw)[i]
         == if Resets(raw, i) then ParagraphLevel(raw) else ImplicitLevels(raw, ParagraphLevel(raw))[i]
  {
    hide ImplicitLevels, Resets, ParagraphLevel;
  }

  /** Levels on a line without codes never exceed 2, and reach down to 0 only in a left-to-right paragraph. */
  lemma PlainLevels(raw: seq<Byte>)
    requires NoExplicitCodes(raw)
    ensures forall i :: 0 <= i < |raw| ==> ParagraphLevel(raw) <= LineLevels(raw)[i] <= 2
  {
    var p := ParagraphLevel(raw);
    forall i | 0 <= i < |raw|
      ensures p <= LineLevels(raw)[i] <= 2
    {
      hide ResolvedTypes, ImplicitLevels, LineLevels, Resets, NoExplicitCodes;
      LevelsFollowTypes(raw, p, i);
      LevelAfterL1(raw, i);
    }
  }

  /** Columns are distinct, so cells can be told apart. */
  predicate DistinctColumns(line: seq<BidiChar>) {
    forall i, j :: 0 <= i < j < |line| ==> line[i].index != line[j].index
  }

  /** A character that the rule would turn by itself is its own mirror image. */
  predicate SameMirrored(line: seq<BidiChar>, levels: seq<Byte>, mirror: nat -> nat)
    requires |line| == |levels|
  {
    forall i :: 0 <= i < |line| && levels[i] % 2 == 1 ==> mirror(line[i].wc) == line[i].wc
  }

  /**
   The condition for the whole call.  With some R or AL, every run of levels 1 and 2 begins with
   level 1 or is a single character.  Without any, the line is left as it is, and so the rule must
   leave it as it is too: numbers count as right-to-left for the neutrals between them, and
   such a neutral may only stand alone and look the same from both sides.
   */
  predicate ShowsByRule(line: seq<BidiChar>, raw: seq<Byte>, mirror: nat -> nat)
    requires |line| == |raw|
  {
    if HasRightToLeft(raw) then RunsBeginAtOne(LineLevels(raw))
    else OnesStandAlone(LineLevels(raw)) && SameMirrored(line, LineLevels(raw), mirror)
  }

  lemma MirroredColumns(line: seq<BidiChar>, levels: seq<Byte>, mirror: nat -> nat)
    requires |line| == |levels| && DistinctColumns(line)
    ensures var s := Mirrored(line, levels, mirror);
      && (forall i :: 0 <= i < |line| ==> s[i].index == line[i].index)
      && (forall i, j :: 0 <= i < j < |s| ==> s[i] != s[j])
  {
    var s := Mirrored(line, levels, mirror);
    assert forall i, j :: 0 <= i < j < |s| ==> s[i].index != s[j].index;
  }

  /**
   The end-to-end result: on a line without embedding or override codes the program leaves what
   rule L2 asks for exactly under that condition.
   */
  lemma DisplayFollowsRuleIff(line: seq<BidiChar>, raw: seq<Byte>, mirror: nat -> nat)
    requires |line| == |raw| && NoExplicitCodes(raw) && DistinctColumns(line)
    ensures Shown(line, raw, mirror) == ByRule(line, LineLevels(raw), mirror) <==> ShowsByRule(line, raw, mirror)
  {
    hide LineLevels, RunsBeginAtOne, OnesStandAlone, Balanced, FlipOrder, RuleOrder, NoExplicitCodes;
    PlainLevels(raw);
    var levels := LineLevels(raw);
    var s := Mirrored(line, levels, mirror);
    MirroredColumns(line, levels, mirror);
    OrderIgnoresIdleLevels(levels, 2, 255, s);
    if HasRightToLeft(raw) {
      BalancedUpToTwo(levels);
      FlipFollowsRuleIff(levels, 2, s);
    } else {
      UntouchedFollowsRuleIff(line, levels, mirror);
    }
  }

  /** The line itself is what the rule asks for exactly if the rule moves and mirrors nothing. */
  lemma UntouchedFollowsRuleIff(line: seq<BidiChar>, levels: seq<Byte>, mirror: nat -> nat)
    requires |line| == |levels| && DistinctColumns(line) && UpToTwo(levels)
    ensures var s := Mirrored(line, levels, mirror);
      line == RuleOrder(levels, 2, s) <==> OnesStandAlone(levels) && SameMirrored(line, levels, mirror)
  {
    hide OnesStandAlone, RuleSource;
    var s := Mirrored(line, levels, mirror);
    MirroredColumns(line, levels, mirror);
    RuleKeepsLineIff(levels, s);
    if line == RuleOrder(levels, 2, s) {
      forall i | 0 <= i < |s|
        ensures RuleOrder(levels, 2, s)[i] == s[i]
      {
        var j := RuleSource(levels, 1, 2, i);
        assert s[j].index == line[j].index && s[j] == line[i];
      }
      assert s == line;
      assert forall i :: 0 <= i < |line| && levels[i] % 2 == 1 ==> s[i].wc == mirror(line[i].wc);
    } else if SameMirrored(line, levels, mirror) {
      assert s == line;
    }
  }

  /** Two Arabic numbers and a space: the rule exchanges the numbers, the program leaves the line as it is. */
  lemma NumbersAloneBreakRule(line: seq<BidiChar>, mirror: nat -> nat)
    requires |line| == 3 && DistinctColumns(line)
    ensures var raw := [AN, WS, AN];
      && LineLevels(raw) == [2, 1, 2]
      && Shown(line, raw, mirror) == line != ByRule(line, LineLevels(raw), mirror)
  {
    hide LineLevels, Displayed, ByRule, OnesStandAlone;
    var raw := [AN, WS, AN];
    NumbersAloneLevels();
    assert !HasRightToLeft(raw) && NoExplicitCodes(raw);
    DisplayFollowsRuleIff(line, raw, mirror);
    if OnesStandAlone(LineLevels(raw)) {
      OneStandsAlone(LineLevels(raw), 1);
    }
  }

  lemma NumbersAloneLevels()
    ensures LineLevels([AN, WS, AN]) == [2, 1, 2]
  {
    hide LineLevels, SideTypes;
    var raw := [AN, WS, AN];
    assert raw[1..] == [WS, AN] && [WS, AN][1..] == [AN] && [AN][1..] == [];
    assert ParagraphLevel([]) == 0;
    assert ParagraphLevel([AN]) == 0;
    assert ParagraphLevel([WS, AN]) == 0;
    NumbersAloneTypes();
    LeftLevel(raw, 0);
    LeftLevel(raw, 1);
    LeftLevel(raw, 2);
  }

  lemma NumbersAloneTypes()
    ensures SideTypes([AN, WS, AN]) == [AN, R, AN]
    ensures !Resets([AN, WS, AN], 1)
  {
    var raw := [AN, WS, AN];
    var weak := ResolveWeak(PlainTypes(raw), 0);
    assert weak == [AN, ON, AN];
    N1OnRun(weak, 1, 2);
    assert SpaceEnd(raw, 1) == 2;
  }

  // ------------------------------------------------------------------
  // Right-to-left paragraphs

  /** After rule W1 the line begins with a number, or with terminators that rule W5 adds to one. */
  predicate LeadsWithNumber(raw: seq<Byte>) {
    && raw != []
    && var w := W1(PlainTypes(raw), ParagraphLevel(raw));
       w[0] == EN || w[0] == AN || (w[0] == ET && NumberAfter(w, 0))
  }

  /** Rules W2 to W4 leave the terminators at the start of the line, and what follows them, alone. */
  lemma {:induction false} LeadingTerminators(w: seq<Byte>, i: nat)
    requires i < |w| && forall q :: 0 <= q <= i ==> w[q] == ET
    ensures NumberAfter(W4(W3(W2(w))), i) == NumberAfter(w, i)
    decreases |w| - i
  {
    if i + 1 < |w| {
      LeadingNotStrong(w, i);
      var w4 := W4(W3(W2(w)));
      assert w4[i] == ET;
      assert w4[i + 1] == ET <==> w[i + 1] == ET;
      assert w4[i + 1] == EN <==> w[i + 1] == EN;
      if w[i + 1] == ET {
        LeadingTerminators(w, i + 1);
      }
    }
  }

  lemma {:induction false} LeadingNotStrong(w: seq<Byte>, i: nat)
    requires i < |w| && forall q :: 0 <= q <= i ==> w[q] == ET
    ensures LastStrong(w, i) == ON
  {
    if i > 0 {
      LeadingNotStrong(w, i - 1);
    }
  }

  /** What the weak rules make of the first character of a right-to-left paragraph. */
  lemma LeadingWeakType(raw: seq<Byte>)
    requires NoExplicitCodes(raw) && raw != [] && ParagraphLevel(raw) == 1
    ensures var t := ResolveWeak(PlainTypes(raw), 1)[0];
      (t == EN || t == AN <==> LeadsWithNumber(raw)) && t != L
  {
    var w := W1(PlainTypes(raw), 1);
    if w[0] == ET {
      LeadingTerminators(w, 0);
    }
    var w4 := W4(W3(W2(w)));
    assert W2(w)[0] == w[0];
    assert w4[0] == W3At(W2(w), 0);
    var w5 := W5(w4);
    assert w5[0] == W5At(w4, 0);
    assert W7(W6(w5))[0] == W6At(w5, 0);
  }

  predicate NoLeftUpTo(ts: seq<Byte>, i: nat) {
    i < |ts| && forall q :: 0 <= q <= i ==> ts[q] != L
  }

  /** The weak rules bring in left-to-right characters only after one. */
  lemma WeakKeepsNotLeft(ts: seq<Byte>, p: Byte, i: nat)
    requires NoLeftUpTo(ts, i) && p != L
    ensures NoLeftUpTo(ResolveWeak(ts, p), i)
  {
    forall q | 0 <= q <= i
      ensures W1At(ts, p, q) != L
    {
      MarkNotLeft(ts, p, q);
    }
    var w1 := W1(ts, p);
    var w4 := W4(W3(W2(w1)));
    assert NoLeftUpTo(w4, i);
    var w6 := W6(W5(w4));
    assert NoLeftUpTo(w6, i);
    forall q | 0 <= q <= i
      ensures W7At(w6, q) != L
    {
      LastStrongNotLeft(w6, q);
    }
  }

  lemma {:induction false} MarkNotLeft(ts: seq<Byte>, p: Byte, i: nat)
    requires NoLeftUpTo(ts, i) && p != L
    ensures W1At(ts, p, i) != L
  {
    if i > 0 {
      MarkNotLeft(ts, p, i - 1);
    }
  }

  lemma {:induction false} LastStrongNotLeft(ts: seq<Byte>, i: nat)
    requires NoLeftUpTo(ts, i)
    ensures LastStrong(ts, i) != L
  {
    if i > 0 {
      LastStrongNotLeft(ts, i - 1);
    }
  }

  /** A neutral that starts the paragraph is never followed by a left-to-right character. */
  lemma LeadingNeutralNotLeft(raw: seq<Byte>)
    requires NoExplicitCodes(raw) && |raw| > 1 && ParagraphLevel(raw) == 1
    requires raw[0] != R && raw[0] != AL
    ensures ResolveWeak(PlainTypes(raw), 1)[1] != L
  {
    assert raw[0] != L;
    assert ParagraphLevel(raw[1..]) == 1;
    assert NoLeftUpTo(PlainTypes(raw), 1);
    WeakKeepsNotLeft(PlainTypes(raw), 1, 1);
  }

  /** A strong first character stays what it is, but for AL, which becomes R. */
  lemma LeadingStrong(raw: seq<Byte>)
    requires NoExplicitCodes(raw) && raw != [] && (raw[0] == R || raw[0] == AL)
    ensures ResolveWeak(PlainTypes(raw), 1)[0] == R
  {
  }

  lemma LeadingLevel(raw: seq<Byte>)
    requires NoExplicitCodes(raw) && raw != [] && ParagraphLevel(raw) == 1
    ensures LineLevels(raw)[0] == if LeadsWithNumber(raw) then 2 else 1
  {
    PlainRun(raw, 1);
    var e := ExplicitRun(raw, 1);
    assert X9(e.types) == PlainTypes(raw);
    LeadingWeakType(raw);
    var weak := ResolveWeak(PlainTypes(raw), 1);
    if weak[0] == ON && |raw| > 1 {
      if raw[0] == R || raw[0] == AL {
        LeadingStrong(raw);
      } else {
        LeadingNeutralNotLeft(raw);
        LeadingNeutral(weak);
      }
    }
    LevelsFollowTypes(raw, 1, 0);
    assert N1(weak)[0] == N1At(weak, 0);
    assert ResolvedTypes(raw, 1)[0] == N2At(N1(weak), EmbeddingLevels(raw, 1), 0);
    assert Resets(raw, 0) ==> raw[0] == WS || raw[0] == B || raw[0] == S;
  }

  /**
   In a right-to-left paragraph the rule is followed unless the line begins with a number and
   has more than one character: then the number stays in front.
   */
  lemma RightToLeftFollowsRuleIff(line: seq<BidiChar>, raw: seq<Byte>, mirror: nat -> nat)
    requires |line| == |raw| > 0 && NoExplicitCodes(raw) && DistinctColumns(line)
    requires ParagraphLevel(raw) == 1
    ensures Shown(line, raw, mirror) == ByRule(line, LineLevels(raw), mirror)
      <==> !LeadsWithNumber(raw) || |raw| == 1
  {
    var lv: seq<int> := LineLevels(raw);
    RightToLeftParagraph(raw);
    PlainLevels(raw);
    DisplayFollowsRuleIff(line, raw, mirror);
    LeadingLevel(raw);
    assert MaximalRun(lv, 1, 0, |raw|);
    forall i | 0 <= i < |raw|
      ensures Start(lv, 1, i) == 0 && End(lv, 1, i) == |raw|
    {
      RunBounds(lv, 1, 0, |raw|, i);
    }
    assert lv[0] >= 1;
  }

  lemma {:induction false} RightToLeftParagraph(raw: seq<Byte>)
    ensures ParagraphLevel(raw) == 1 ==> HasRightToLeft(raw)
  {
    if raw != [] && raw[0] != R && raw[0] != AL && raw[0] != L && ParagraphLevel(raw) == 1 {
      RightToLeftParagraph(raw[1..]);
      var k :| 0 <= k < |raw[1..]| && (raw[1..][k] == R || raw[1..][k] == AL);
      assert raw[k + 1] == raw[1..][k];
    }
  }

  /** In particular when the line begins with a right-to-left letter. */
  lemma LeadingLetterFollowsRule(line: seq<BidiChar>, raw: seq<Byte>, mirror: nat -> nat)
    requires |line| == |raw| > 0 && NoExplicitCodes(raw) && DistinctColumns(line)
    requires raw[0] == R || raw[0] == AL
    ensures Shown(line, raw, mirror) == ByRule(line, LineLevels(raw), mirror)
  {
    assert ParagraphLevel(raw) == 1 && !LeadsWithNumber(raw);
    RightToLeftFollowsRuleIff(line, raw, mirror);
  }

  /** A digit before a Hebrew letter: the rule shows the letter first, the program the digit. */
  lemma LeadingDigitBreaksRule(digit: BidiChar, letter: BidiChar, mirror: nat -> nat)
    requires digit.index != letter.index
    ensures var line, raw := [digit, letter], [EN, R];
      ByRule(line, LineLevels(raw), mirror) != Shown(line, raw, mirror)
  {
    var raw := [EN, R];
    assert raw[1..] == [R] && ParagraphLevel(raw) == 1;
    assert W1(PlainTypes(raw), 1)[0] == EN;
    RightToLeftFollowsRuleIff([digit, letter], raw, mirror);
  }

  // ------------------------------------------------------------------
  // Left-to-right paragraphs

  /** The types after rule N1 in a left-to-right paragraph without codes. */
  function SideTypes(raw: seq<Byte>): (ts: seq<Byte>)
    ensures |ts| == |raw|
  {
    N1(ResolveWeak(PlainTypes(raw), 0))
  }

  predicate Number(raw: seq<Byte>, i: nat)
    requires i < |raw|
  {
    SideTypes(raw)[i] == EN || SideTypes(raw)[i] == AN
  }

  /** Right-to-left, and not white space that rule L1 takes back. */
  predicate Turned(raw: seq<Byte>, i: nat)
    requires i < |raw|
  {
    SideTypes(raw)[i] == R && !Resets(raw, i)
  }

  predicate Sided(raw: seq<Byte>, i: nat)
    requires i < |raw|
  {
    Number(raw, i) || Turned(raw, i)
  }

  /** A stretch of right-to-left characters and numbers that is longer than one and begins with a number. */
  predicate NumberLeads(raw: seq<Byte>, i: nat) {
    && i + 1 < |raw|
    && Number(raw, i) && Sided(raw, i + 1)
    && (i > 0 ==> !Sided(raw, i - 1))
  }

  /** Such a stretch of one character, or nothing of the kind. */
  predicate Lonely(raw: seq<Byte>, i: nat)
    requires i < |raw|
  {
    (i > 0 ==> !Sided(raw, i - 1)) && (i + 1 < |raw| ==> !Sided(raw, i + 1))
  }

  /** The level of a character of such a paragraph: 1 if it is turned, 2 for a number, otherwise 0. */
  lemma LeftLevel(raw: seq<Byte>, i: nat)
    requires NoExplicitCodes(raw) && ParagraphLevel(raw) == 0 && i < |raw|
    ensures LineLevels(raw)[i] == if Turned(raw, i) then 1 else if Number(raw, i) then 2 else 0
  {
    hide ResolveWeak, N1, ImplicitLevels, LineLevels, EmbeddingLevels, ResolvedTypes, Resets, NoExplicitCodes,
         PlainTypes;
    PlainStart(raw, 0);
    LevelsFollowTypes(raw, 0, i);
    LevelAfterL1(raw, i);
    assert ResolvedTypes(raw, 0)[i] == N2At(SideTypes(raw), EmbeddingLevels(raw, 0), i);
    if Number(raw, i) {
      NumberStays(raw, i);
    }
  }

  /** Rule L1 never takes a number back. */
  lemma NumberStays(raw: seq<Byte>, i: nat)
    requires i < |raw| && Number(raw, i)
    ensures !Resets(raw, i)
  {
    var weak := ResolveWeak(PlainTypes(raw), 0);
    assert SideTypes(raw)[i] == N1At(weak, i);
    if raw[i] == WS || raw[i] == S || raw[i] == B {
      SpaceIsNoNumber(PlainTypes(raw), 0, i);
    }
  }

  lemma SpaceIsNoNumber(ts: seq<Byte>, p: Byte, i: nat)
    requires i < |ts| && (ts[i] == ON || ts[i] == B)
    ensures ResolveWeak(ts, p)[i] == ts[i]
  {
  }

  /**
   In a left-to-right paragraph with some R or AL the rule is followed exactly if no stretch of
   right-to-left characters and numbers begins with a number and is longer than one character;
   without any, exactly if every turned neutral is by itself and its own mirror image.
   */
  lemma LeftToRightFollowsRuleIff(line: seq<BidiChar>, raw: seq<Byte>, mirror: nat -> nat)
    requires |line| == |raw| && NoExplicitCodes(raw) && DistinctColumns(line) && ParagraphLevel(raw) == 0
    ensures Shown(line, raw, mirror) == ByRule(line, LineLevels(raw), mirror) <==>
      if HasRightToLeft(raw) then forall i: nat :: !NumberLeads(raw, i)
      else forall i :: 0 <= i < |raw| && Turned(raw, i) ==> Lonely(raw, i) && mirror(line[i].wc) == line[i].wc
  {
    var lv: seq<int> := LineLevels(raw);
    hide LineLevels, SideTypes, Resets, NoExplicitCodes, Shown, ByRule, RunsBeginAtOne, ParagraphLevel;
    PlainLevels(raw);
    DisplayFollowsRuleIff(line, raw, mirror);
    NoTwoLeadsIff(lv);
    forall i: nat
      ensures TwoLeads(lv, i) == NumberLeads(raw, i)
      ensures i < |raw| ==> (lv[i] == 1 <==> Turned(raw, i)) && StandsAlone(lv, i) == Lonely(raw, i)
    {
      LevelsAround(raw, i);
    }
  }

  lemma LevelsAround(raw: seq<Byte>, i: nat)
    requires NoExplicitCodes(raw) && ParagraphLevel(raw) == 0
    ensures TwoLeads(LineLevels(raw), i) == NumberLeads(raw, i)
    ensures i < |raw| ==> (LineLevels(raw)[i] == 1 <==> Turned(raw, i))
    ensures i < |raw| ==> StandsAlone(LineLevels(raw), i) == Lonely(raw, i)
  {
    hide LineLevels, Number, Turned, NoExplicitCodes, ParagraphLevel;
    if i < |raw| {
      LeftLevel(raw, i);
      NumberNotTurned(raw, i);
      if i > 0 {
        LeftLevel(raw, i - 1);
      }
      if i + 1 < |raw| {
        LeftLevel(raw, i + 1);
      }
    }
  }

  lemma NumberNotTurned(raw: seq<Byte>, i: nat)
    requires i < |raw|
    ensures !(Number(raw, i) && Turned(raw, i))
  {
  }

  // ------------------------------------------------------------------
  // Lines of letters and digits

  predicate LettersAndDigits(raw: seq<Byte>) {
    forall i :: 0 <= i < |raw| ==> raw[i] == L || raw[i] == R || raw[i] == AL || raw[i] == EN || raw[i] == AN
  }

  /** A left-to-right letter, or a European digit whose last letter before it is one. */
  predicate LeftAt(raw: seq<Byte>, i: nat)
    requires i < |raw|
  {
    raw[i] == L || (raw[i] == EN && LastStrong(raw, i) == L)
  }

  /** A digit that does not belong to a left-to-right word, first of its stretch and not alone in it. */
  predicate DigitLeads(raw: seq<Byte>, i: nat) {
    && i + 1 < |raw|
    && (raw[i] == EN || raw[i] == AN) && !LeftAt(raw, i) && !LeftAt(raw, i + 1)
    && (i > 0 ==> LeftAt(raw, i - 1))
  }

  /** What rules W1 to W6 make of such types. */
  function AfterW6(raw: seq<Byte>, i: nat): Byte
    requires i < |raw|
  {
    if raw[i] == AL then R else if raw[i] == EN && LastStrong(raw, i) == AL then AN else raw[i]
  }

  lemma WeakOnLetters(raw: seq<Byte>)
    requires LettersAndDigits(raw)
    ensures PlainTypes(raw) == raw
    ensures forall i :: 0 <= i < |raw| ==> W6(W5(W4(W3(W2(W1(raw, 0))))))[i] == AfterW6(raw, i)
  {
    hide LastStrong;
    MarksAbsent(raw);
    var w3 := W3(W2(raw));
    assert forall i :: 0 <= i < |raw| ==> w3[i] == AfterW6(raw, i);
    assert forall i :: 0 <= i < |raw| ==> w3[i] != ES && w3[i] != CS && w3[i] != ET;
    NoSeparators(w3);
  }

  lemma MarksAbsent(raw: seq<Byte>)
    requires LettersAndDigits(raw)
    ensures W1(raw, 0) == raw
  {
  }

  lemma NoSeparators(ts: seq<Byte>)
    requires forall i :: 0 <= i < |ts| ==> ts[i] != ES && ts[i] != CS && ts[i] != ET
    ensures W6(W5(W4(ts))) == ts
  {
    assert W4(ts) == ts;
    assert W5(ts) == ts;
  }

  lemma {:induction false} SameLastLeft(raw: seq<Byte>, w: seq<Byte>, i: nat)
    requires LettersAndDigits(raw) && i < |raw| == |w|
    requires forall q :: 0 <= q < |raw| ==> w[q] == AfterW6(raw, q)
    ensures LastStrong(w, i) == L <==> LastStrong(raw, i) == L
  {
    if i > 0 && raw[i] != L && raw[i] != R && raw[i] != AL {
      SameLastLeft(raw, w, i - 1);
    }
  }

  /** Without neutrals a character is sided exactly if it is not in a left-to-right word. */
  lemma LettersSided(raw: seq<Byte>, i: nat)
    requires LettersAndDigits(raw) && i < |raw|
    ensures Sided(raw, i) == !LeftAt(raw, i)
    ensures Number(raw, i) == ((raw[i] == EN || raw[i] == AN) && !LeftAt(raw, i))
    ensures Turned(raw, i) == (raw[i] == R || raw[i] == AL)
  {
    WeakOnLetters(raw);
    var w := W6(W5(W4(W3(W2(W1(raw, 0))))));
    SameLastLeft(raw, w, i);
    LettersSide(raw, w, i);
    assert SpaceEnd(raw, i) == i;
  }

  lemma LettersSide(raw: seq<Byte>, w: seq<Byte>, i: nat)
    requires i < |raw| == |w| && PlainTypes(raw) == raw && w == W6(W5(W4(W3(W2(W1(raw, 0))))))
    requires w[i] != ON
    ensures SideTypes(raw)[i] == W7At(w, i)
  {
    hide W1, W2, W3, W4, W5, W6, LastStrong;
    assert SideTypes(raw)[i] == N1At(W7(w), i);
  }

  /**
   Letters and digits in a left-to-right paragraph: the rule is followed exactly if there is no R or
   AL, or no stretch outside the left-to-right words begins with a digit and goes on.
   */
  lemma LettersAndDigitsFollowRuleIff(line: seq<BidiChar>, raw: seq<Byte>, mirror: nat -> nat)
    requires |line| == |raw| && LettersAndDigits(raw) && DistinctColumns(line) && ParagraphLevel(raw) == 0
    ensures Shown(line, raw, mirror) == ByRule(line, LineLevels(raw), mirror)
      <==> !HasRightToLeft(raw) || forall i: nat :: !DigitLeads(raw, i)
  {
    assert NoExplicitCodes(raw);
    hide LineLevels, Shown, ByRule, Turned, ParagraphLevel, NoExplicitCodes, NumberLeads, DigitLeads, LettersAndDigits;
    LeftToRightFollowsRuleIff(line, raw, mirror);
    forall i: nat
      ensures NumberLeads(raw, i) == DigitLeads(raw, i)
      ensures i < |raw| && Turned(raw, i) ==> HasRightToLeft(raw)
    {
      LettersAround(raw, i);
    }
  }

  lemma LettersAround(raw: seq<Byte>, i: nat)
    requires LettersAndDigits(raw)
    ensures NumberLeads(raw, i) == DigitLeads(raw, i)
    ensures i < |raw| && Turned(raw, i) ==> HasRightToLeft(raw)
  {
    hide Number, Turned, Sided, LeftAt, LettersAndDigits;
    if i < |raw| {
      LettersSided(raw, i);
      if i > 0 {
        LettersSided(raw, i - 1);
      }
      if i + 1 < |raw| {
        LettersSided(raw, i + 1);
      }
    }
  }

  /** Two digits, a Latin and a Hebrew letter: the program shows the digits exchanged, the rule does not. */
  lemma LeadingDigitsExchanged(line: seq<BidiChar>, mirror: nat -> nat)
    requires |line| == 4 && DistinctColumns(line)
    ensures var raw := [EN, EN, L, R];
      && Shown(line, raw, mirror) == [line[1], line[0], line[2], line[3].(wc := mirror(line[3].wc))]
      && ByRule(line, LineLevels(raw), mirror) == [line[0], line[1], line[2], line[3].(wc := mirror(line[3].wc))]
  {
    hide LineLevels, FlipOrder, RuleOrder, DistinctColumns;
    var raw := [EN, EN, L, R];
    assert raw[3] == R;
    LeadingDigitsLevels();
    var lv: seq<int> := [2, 2, 0, 1];
    var s := Mirrored(line, LineLevels(raw), mirror);
    assert s == [line[0], line[1], line[2], line[3].(wc := mirror(line[3].wc))];
    OrderIgnoresIdleLevels(lv, 2, 255, s);
    ExchangedOrders(s);
  }

  lemma LeadingDigitsLevels()
    ensures LineLevels([EN, EN, L, R]) == [2, 2, 0, 1]
  {
    hide LineLevels, SideTypes, Resets, LeftAt;
    var raw := [EN, EN, L, R];
    assert raw[1..] == [EN, L, R] && [EN, L, R][1..] == [L, R];
    assert ParagraphLevel([L, R]) == ParagraphLevel([EN, L, R]) == 0;
    forall i: nat | i < 4
      ensures LineLevels(raw)[i] == if i < 2 then 2 else if i == 2 then 0 else 1
    {
      LeftLevel(raw, i);
      LettersSided(raw, i);
      LeadingDigitsLeft(i);
    }
  }

  lemma LeadingDigitsLeft(i: nat)
    requires i < 4
    ensures LeftAt([EN, EN, L, R], i) == (i == 2)
  {
    assert LastStrong([EN, EN, L, R], 0) == ON;
  }

  lemma ExchangedOrders<T>(s: seq<T>)
    requires |s| == 4
    ensures FlipOrder([2, 2, 0, 1], 2, s) == [s[1], s[0], s[2], s[3]]
    ensures RuleOrder([2, 2, 0, 1], 2, s) == s
  {
    var lv: seq<int> := [2, 2, 0, 1];
    assert MaximalRun(lv, 1, 0, 2) && MaximalRun(lv, 2, 0, 2) && MaximalRun(lv, 1, 3, 4);
    forall i: nat | i < 4
      ensures FlipSource(lv, 1, 2, i) == (if i == 0 then 1 else if i == 1 then 0 else i) && RuleSource(lv, 1, 2, i) == i
    {
      ExchangedCell(lv, i);
    }
  }

  lemma ExchangedCell(lv: seq<int>, i: nat)
    requires lv == [2, 2, 0, 1] && i < 4
    requires MaximalRun(lv, 1, 0, 2) && MaximalRun(lv, 2, 0, 2) && MaximalRun(lv, 1, 3, 4)
    ensures FlipSource(lv, 1, 2, i) == if i == 0 then 1 else if i == 1 then 0 else i
    ensures RuleSource(lv, 1, 2, i) == i
  {
    if i == 2 {
      LowCellsFixed(lv, 1, 2, i);
    } else {
      var a, e: nat := if i < 2 then 0 else 3, if i < 2 then 2 else 4;
      RunBounds(lv, 1, a, e, i);
      FirstAtShape(lv, 1, a, e);
      FirstAtShape(lv, 2, 0, 2);
      TwoPasses(lv, i);
      TwoFlips(lv, i);
      if i < 2 {
        RunBounds(lv, 2, 0, 2, i);
        RunBounds(lv, 2, 0, 2, 1 - i);
      }
    }
  }
}
