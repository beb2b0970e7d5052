/**
 The rules of UAX #9 that resolve types and levels, each stated as applied to every character of
 the line at once, and the program's left-to-right passes that overwrite one array
 as they go.  Every pass is proved to leave exactly what its rule says.

 Types are kept as the byte codes the program stores: some of its steps put other
 numbers than type names into the array.
 */
module BidiRules {
  import opened Bytes

  const L: Byte := 0
  const LRE: Byte := 1
  const LRO: Byte := 2
  const R: Byte := 3
  const AL: Byte := 4
  const RLE: Byte := 5
  const RLO: Byte := 6
  const PDF: Byte := 7
  const EN: Byte := 8
  const ES: Byte := 9
  const ET: Byte := 10
  const AN: Byte := 11
  const CS: Byte := 12
  const NSM: Byte := 13
  const BN: Byte := 14
  const B: Byte := 15
  const S: Byte := 16
  const WS: Byte := 17
  const ON: Byte := 18

  // ------------------------------------------------------------------
  // W1: a nonspacing mark takes the type of the character before it

  function W1At(ts: seq<Byte>, sor: Byte, i: nat): Byte
    requires i < |ts|
  {
    if ts[i] != NSM then ts[i] else if i == 0 then sor else W1At(ts, sor, i - 1)
  }

  function W1(ts: seq<Byte>, sor: Byte): (r: seq<Byte>)
    ensures |r| == |ts|
  {
    seq(|ts|, i requires 0 <= i < |ts| => W1At(ts, sor, i))
  }

  /** The start-of-line type is the paragraph level, stored as if it were a type. */
  method ApplyW1(types: array<Byte>, paragraphLevel: Byte)
    requires types.Length > 0
    modifies types
    ensures types[..] == W1(old(types[..]), paragraphLevel)
  {
    ghost var ts := types[..];
    if types[0] == NSM {
      types[0] := paragraphLevel;
    }
    var i := 1;
    while i < types.Length
      invariant 1 <= i <= types.Length
      invariant forall q :: 0 <= q < i ==> types[q] == W1At(ts, paragraphLevel, q)
      invariant forall q :: i <= q < types.Length ==> types[q] == ts[q]
    {
      if types[i] == NSM {
        types[i] := types[i - 1];
      }
      i := i + 1;
    }
  }

  // ------------------------------------------------------------------
  // W2, W3 and W7: what the last strong character does to a number

  /** The type of the last L, R or AL at or before `i`, or ON if there is none. */
  function LastStrong(ts: seq<Byte>, i: nat): (t: Byte)
    requires i < |ts|
    ensures t == L || t == R || t == AL || t == ON
  {
    if ts[i] == L || ts[i] == R || ts[i] == AL then ts[i]
    else if i == 0 then ON
    else LastStrong(ts, i - 1)
  }

  predicate Strong(t: Byte) {
    t == L || t == R || t == AL
  }

  /** Reference reading: some earlier character is of that type and nothing strong follows it. */
  lemma {:induction false} LastStrongMeans(ts: seq<Byte>, i: nat, t: Byte)
    requires i < |ts| && Strong(t)
    ensures LastStrong(ts, i) == t <==>
      exists j: nat :: j <= i && ts[j] == t && forall q :: j < q <= i ==> !Strong(ts[q])
  {
    if !Strong(ts[i]) && i > 0 {
      LastStrongMeans(ts, i - 1, t);
      if LastStrong(ts, i - 1) == t {
        var j: nat :| j <= i - 1 && ts[j] == t && forall q :: j < q <= i - 1 ==> !Strong(ts[q]);
        assert forall q :: j < q <= i ==> !Strong(ts[q]);
      }
    }
  }

  function W2At(ts: seq<Byte>, i: nat): Byte
    requires i < |ts|
  {
    if ts[i] == EN && LastStrong(ts, i) == AL then AN else ts[i]
  }

  function W2(ts: seq<Byte>): (r: seq<Byte>)
    ensures |r| == |ts|
  {
    seq(|ts|, i requires 0 <= i < |ts| => W2At(ts, i))
  }

  method ApplyW2(types: array<Byte>)
    modifies types
    ensures types[..] == W2(old(types[..]))
  {
    ghost var ts := types[..];
    var i := 0;
    while i < types.Length
      invariant 0 <= i <= types.Length
      invariant forall q :: 0 <= q < i ==> types[q] == W2At(ts, q)
      invariant forall q :: i <= q < types.Length ==> types[q] == ts[q]
    {
      if types[i] == EN {
        var j: int := i;
        while j >= 0
          invariant -1 <= j <= i
          invariant LastStrong(ts, i) == if j >= 0 then LastStrong(ts, j) else ON
          invariant forall q :: 0 <= q < i ==> types[q] == W2At(ts, q)
          invariant forall q :: i <= q < types.Length ==> types[q] == ts[q]
        {
          if types[j] == AL {
            types[i] := AN;
            break;
          } else if types[j] == R || types[j] == L {
            break;
          }
          j := j - 1;
        }
      }
      i := i + 1;
    }
  }

  function W3At(ts: seq<Byte>, i: nat): Byte
    requires i < |ts|
  {
    if ts[i] == AL then R else ts[i]
  }

  function W3(ts: seq<Byte>): (r: seq<Byte>)
    ensures |r| == |ts|
  {
    seq(|ts|, i requires 0 <= i < |ts| => W3At(ts, i))
  }

  method ApplyW3(types: array<Byte>)
    modifies types
    ensures types[..] == W3(old(types[..]))
  {
    ghost var ts := types[..];
    var i := 0;
    while i < types.Length
      invariant 0 <= i <= types.Length
      invariant forall q :: 0 <= q < i ==> types[q] == W3At(ts, q)
      invariant forall q :: i <= q < types.Length ==> types[q] == ts[q]
    {
      if types[i] == AL {
        types[i] := R;
      }
      i := i + 1;
    }
  }

  function W7At(ts: seq<Byte>, i: nat): Byte
    requires i < |ts|
  {
    if ts[i] == EN && LastStrong(ts, i) == L then L else ts[i]
  }

  function W7(ts: seq<Byte>): (r: seq<Byte>)
    ensures |r| == |ts|
  {
    seq(|ts|, i requires 0 <= i < |ts| => W7At(ts, i))
  }

  method ApplyW7(types: array<Byte>)
    modifies types
    ensures types[..] == W7(old(types[..]))
  {
    ghost var ts := types[..];
    var i := 0;
    while i < types.Length
      invariant 0 <= i <= types.Length
      invariant forall q :: 0 <= q < i ==> types[q] == W7At(ts, q)
      invariant forall q :: i <= q < types.Length ==> types[q] == ts[q]
    {
      if types[i] == EN {
        var j: int := i;
        while j >= 0
          invariant -1 <= j <= i
          invariant LastStrong(ts, i) == if j >= 0 then LastStrong(ts, j) else ON
          invariant forall q :: 0 <= q < i ==> types[q] == W7At(ts, q)
          invariant forall q :: i <= q < types.Length ==> types[q] == ts[q]
        {
          if types[j] == L {
            types[i] := L;
            break;
          } else if types[j] == R || types[j] == AL {
            break;
          }
          j := j - 1;
        }
      }
      i := i + 1;
    }
  }

  // ------------------------------------------------------------------
  // W4: a single separator between two numbers of the same type

  function W4At(ts: seq<Byte>, i: nat): Byte
    requires i < |ts|
  {
    if 0 < i < |ts| - 1 && (ts[i] == ES || ts[i] == CS) && ts[i - 1] == EN && ts[i + 1] == EN then EN
    else if 0 < i < |ts| - 1 && ts[i] == CS && ts[i - 1] == AN && ts[i + 1] == AN then AN
    else ts[i]
  }

  function W4(ts: seq<Byte>): (r: seq<Byte>)
    ensures |r| == |ts|
  {
    seq(|ts|, i requires 0 <= i < |ts| => W4At(ts, i))
  }

  method ApplyW4(types: array<Byte>)
    modifies types
    ensures types[..] == W4(old(types[..]))
  {
    ghost var ts := types[..];
    var i := 1;
    while i < types.Length - 1
      invariant 1 <= i && (i <= types.Length - 1 || i == 1)
      invariant forall q :: 0 <= q < i && q < types.Length ==> types[q] == W4At(ts, q)
      invariant forall q :: i <= q < types.Length ==> types[q] == ts[q]
    {
      if types[i] == ES {
        if types[i - 1] == EN && types[i + 1] == EN {
          types[i] := EN;
        }
      } else if types[i] == CS {
        if types[i - 1] == EN && types[i + 1] == EN {
          types[i] := EN;
        } else if types[i - 1] == AN && types[i + 1] == AN {
          types[i] := AN;
        }
      }
      i := i + 1;
    }
  }

  // ------------------------------------------------------------------
  // W5: a run of European terminators touching a European number

  /** The run of ET around `i` has an EN just before it ... */
  predicate NumberBefore(ts: seq<Byte>, i: nat)
    requires i < |ts|
  {
    i > 0 && (ts[i - 1] == EN || (ts[i - 1] == ET && NumberBefore(ts, i - 1)))
  }

  /** ... or just after it. */
  predicate NumberAfter(ts: seq<Byte>, i: nat)
    requires i < |ts|
    decreases |ts| - i
  {
    i + 1 < |ts| && (ts[i + 1] == EN || (ts[i + 1] == ET && NumberAfter(ts, i + 1)))
  }

  function W5At(ts: seq<Byte>, i: nat): Byte
    requires i < |ts|
  {
    if ts[i] == ET && (NumberBefore(ts, i) || NumberAfter(ts, i)) then EN else ts[i]
  }

  /** Reference reading: a maximal run of terminators changes as a whole, if a number touches it. */
  lemma W5OnRun(ts: seq<Byte>, a: nat, e: nat)
    requires a < e <= |ts| && forall q :: a <= q < e ==> ts[q] == ET
    requires a > 0 ==> ts[a - 1] != ET
    requires e < |ts| ==> ts[e] != ET
    ensures forall q :: a <= q < e ==>
      W5At(ts, q) == if (a > 0 && ts[a - 1] == EN) || (e < |ts| && ts[e] == EN) then EN else ET
  {
    forall q | a <= q < e
      ensures NumberBefore(ts, q) == (a > 0 && ts[a - 1] == EN)
      ensures NumberAfter(ts, q) == (e < |ts| && ts[e] == EN)
    {
      NumberBeforeRun(ts, a, q);
      NumberAfterRun(ts, q, e);
    }
  }

  lemma {:induction false} NumberBeforeRun(ts: seq<Byte>, a: nat, q: nat)
    requires a <= q < |ts| && forall x :: a <= x <= q ==> ts[x] == ET
    requires a > 0 ==> ts[a - 1] != ET
    ensures NumberBefore(ts, q) == (a > 0 && ts[a - 1] == EN)
  {
    if a < q {
      NumberBeforeRun(ts, a, q - 1);
    }
  }

  lemma {:induction false} NumberAfterRun(ts: seq<Byte>, q: nat, e: nat)
    requires q < e <= |ts| && forall x :: q <= x < e ==> ts[x] == ET
    requires e < |ts| ==> ts[e] != ET
    ensures NumberAfter(ts, q) == (e < |ts| && ts[e] == EN)
    decreases e - q
  {
    if q + 1 < e {
      NumberAfterRun(ts, q + 1, e);
    }
  }

  function W5(ts: seq<Byte>): (r: seq<Byte>)
    ensures |r| == |ts|
  {
    seq(|ts|, i requires 0 <= i < |ts| => W5At(ts, i))
  }

  /** The type after the run of terminators is only read inside the line. */
  method ApplyW5(types: array<Byte>)
    modifies types
    ensures types[..] == W5(old(types[..]))
  {
    ghost var ts := types[..];
    var i := 0;
    while i < types.Length
      invariant 0 <= i <= types.Length
      invariant forall q :: 0 <= q < i ==> types[q] == W5At(ts, q)
      invariant forall q :: i <= q < types.Length ==> types[q] == ts[q]
    {
      if types[i] == ET {
        if i > 0 && types[i - 1] == EN {
          types[i] := EN;
        } else if i < types.Length - 1 && types[i + 1] == EN {
          types[i] := EN;
        } else if i < types.Length - 1 && types[i + 1] == ET {
          var j := i;
          while j < types.Length && types[j] == ET
            invariant i <= j <= types.Length
            invariant forall q :: i <= q < j ==> ts[q] == ET
            invariant j == i || NumberAfter(ts, i) == NumberAfter(ts, j - 1)
            invariant forall q :: 0 <= q < i ==> types[q] == W5At(ts, q)
            invariant forall q :: i <= q < types.Length ==> types[q] == ts[q]
          {
            j := j + 1;
          }
          if j < types.Length && types[j] == EN {
            types[i] := EN;
          }
        }
      }
      i := i + 1;
    }
  }

  // ------------------------------------------------------------------
  // W6: what is left of separators and terminators is neutral

  function W6At(ts: seq<Byte>, i: nat): Byte
    requires i < |ts|
  {
    if ts[i] == ES || ts[i] == ET || ts[i] == CS then ON else ts[i]
  }

  function W6(ts: seq<Byte>): (r: seq<Byte>)
    ensures |r| == |ts|
  {
    seq(|ts|, i requires 0 <= i < |ts| => W6At(ts, i))
  }

  method ApplyW6(types: array<Byte>)
    modifies types
    ensures types[..] == W6(old(types[..]))
  {
    ghost var ts := types[..];
    var i := 0;
    while i < types.Length
      invariant 0 <= i <= types.Length
      invariant forall q :: 0 <= q < i ==> types[q] == W6At(ts, q)
      invariant forall q :: i <= q < types.Length ==> types[q] == ts[q]
    {
      if types[i] == ES || types[i] == ET || types[i] == CS {
        types[i] := ON;
      }
      i := i + 1;
    }
  }

  // ------------------------------------------------------------------
  // N1 and N2: neutrals

  /** First position of the run of neutrals around `i`. */
  function NeutralStart(ts: seq<Byte>, i: nat): (a: nat)
    requires i < |ts|
    ensures a <= i
  {
    if i > 0 && ts[i - 1] == ON then NeutralStart(ts, i - 1) else i
  }

  /** First position at or after `i` that is not neutral, or the end of the line. */
  function NeutralEnd(ts: seq<Byte>, i: nat): (e: nat)
    requires i <= |ts|
    ensures i <= e <= |ts|
    decreases |ts| - i
  {
    if i < |ts| && ts[i] == ON then NeutralEnd(ts, i + 1) else i
  }

  /** The direction a character gives to neutrals: numbers count as R; ON if it gives none. */
  function Direction(t: Byte): Byte {
    if t == L then L else if t == R || t == EN || t == AN then R else ON
  }

  /**
   A run of neutrals inside the line takes a direction when both its neighbours give the
   same one.  At either end of the line only a single neutral takes the direction
   of its one neighbour.
   */
  function N1At(ts: seq<Byte>, i: nat): Byte
    requires i < |ts|
  {
    if ts[i] != ON then ts[i]
    else
      var a, e := NeutralStart(ts, i), NeutralEnd(ts, i);
      if a > 0 && e < |ts| then
        if Direction(ts[a - 1]) == Direction(ts[e]) then Direction(ts[e]) else ON
      else if e == 1 < |ts| then Direction(ts[1])
      else if 0 < a == |ts| - 1 then Direction(ts[a - 1])
      else ON
  }

  /** Reference reading for a maximal run of neutrals inside the line. */
  lemma N1OnRun(ts: seq<Byte>, a: nat, e: nat)
    requires 0 < a < e < |ts| && ts[a - 1] != ON && ts[e] != ON && forall q :: a <= q < e ==> ts[q] == ON
    ensures forall q :: a <= q < e ==>
      N1At(ts, q) == if Direction(ts[a - 1]) == Direction(ts[e]) then Direction(ts[e]) else ON
  {
    forall q | a <= q < e
      ensures N1At(ts, q) == if Direction(ts[a - 1]) == Direction(ts[e]) then Direction(ts[e]) else ON
    {
      NeutralRunShared(ts, a, e, q);
    }
  }

  function N1(ts: seq<Byte>): (r: seq<Byte>)
    ensures |r| == |ts|
  {
    seq(|ts|, i requires 0 <= i < |ts| => N1At(ts, i))
  }

  lemma {:induction false} NeutralEndShape(ts: seq<Byte>, i: nat)
    requires i <= |ts|
    ensures var e := NeutralEnd(ts, i);
      (e < |ts| ==> ts[e] != ON) && forall q :: i <= q < e ==> ts[q] == ON
    decreases |ts| - i
  {
    if i < |ts| && ts[i] == ON {
      NeutralEndShape(ts, i + 1);
    }
  }

  /** All neutrals of a run share its ends. */
  lemma {:induction false} NeutralRunShared(ts: seq<Byte>, a: nat, e: nat, q: nat)
    requires a <= q < e <= |ts| && forall x :: a <= x < e ==> ts[x] == ON
    requires a > 0 ==> ts[a - 1] != ON
    requires e < |ts| ==> ts[e] != ON
    ensures NeutralStart(ts, q) == a && NeutralEnd(ts, q) == e
  {
    NeutralStartIs(ts, a, e, q);
    NeutralEndIs(ts, e, q);
  }

  lemma {:induction false} NeutralStartIs(ts: seq<Byte>, a: nat, e: nat, q: nat)
    requires a <= q < e <= |ts| && forall x :: a <= x < e ==> ts[x] == ON
    requires a > 0 ==> ts[a - 1] != ON
    ensures NeutralStart(ts, q) == a
  {
    if a < q {
      NeutralStartIs(ts, a, e, q - 1);
    }
  }

  lemma {:induction false} NeutralEndIs(ts: seq<Byte>, e: nat, q: nat)
    requires q <= e <= |ts| && forall x :: q <= x < e ==> ts[x] == ON
    requires e < |ts| ==> ts[e] != ON
    ensures NeutralEnd(ts, q) == e
    decreases e - q
  {
    if q < e {
      NeutralEndIs(ts, e, q + 1);
    }
  }

  /** Two neighbouring neutrals resolve alike, except a single one at the end of the line. */
  lemma {:induction false} NeighboursAlike(ts: seq<Byte>, i: nat)
    requires 0 < i < |ts| && ts[i - 1] == ON && ts[i] == ON
    ensures N1At(ts, i - 1) == N1At(ts, i)
  {
    assert NeutralStart(ts, i) == NeutralStart(ts, i - 1);
    assert NeutralEnd(ts, i) == NeutralEnd(ts, i - 1);
    NeutralEndShape(ts, i);
  }

  /** At the start of the line only a single neutral is resolved. */
  lemma {:induction false} LeadingNeutral(ts: seq<Byte>)
    requires |ts| >= 2 && ts[0] == ON
    ensures N1At(ts, 0) == Direction(ts[1])
    ensures ts[1] == ON ==> N1At(ts, 1) == ON
  {
    NeutralEndShape(ts, 0);
    if ts[1] == ON {
      NeighboursAlike(ts, 1);
    }
  }

  /** The first position at or after `i`, but not past the last, that is not neutral. */
  method SkipNeutrals(types: array<Byte>, i: nat) returns (j: nat)
    requires i < types.Length - 1
    ensures i <= j <= types.Length - 1
    ensures forall q :: i <= q < j ==> types[q] == ON
    ensures j < types.Length - 1 ==> types[j] != ON
  {
    j := i;
    while j < types.Length - 1 && types[j] == ON
      invariant i <= j <= types.Length - 1
      invariant forall q :: i <= q < j ==> types[q] == ON
    {
      j := j + 1;
    }
  }

  /** Writes one direction over a stretch. */
  method Fill(types: array<Byte>, i: nat, j: nat, t: Byte)
    requires i <= j <= types.Length
    modifies types
    ensures forall q :: i <= q < j ==> types[q] == t
    ensures forall q :: 0 <= q < i || j <= q < types.Length ==> types[q] == old(types[q])
  {
    var k := i;
    while k < j
      invariant i <= k <= j
      invariant forall q :: i <= q < k ==> types[q] == t
      invariant forall q :: 0 <= q < i || k <= q < types.Length ==> types[q] == old(types[q])
    {
      types[k] := t;
      k := k + 1;
    }
  }

  /** The neutrals from `i` to `j` as the loop finds them. */
  lemma {:induction false} InteriorRun(ts: seq<Byte>, i: nat, j: nat)
    requires 0 < i < j <= |ts| - 1 && ts[i - 1] != ON && forall q :: i <= q < j ==> ts[q] == ON
    requires j < |ts| - 1 ==> ts[j] != ON
    ensures forall q :: i <= q < j ==>
      N1At(ts, q) == if Direction(ts[j]) == Direction(ts[i - 1]) then Direction(ts[j]) else ON
  {
    var e := if ts[j] == ON then j + 1 else j;
    forall q | i <= q < j
      ensures N1At(ts, q) == if Direction(ts[j]) == Direction(ts[i - 1]) then Direction(ts[j]) else ON
    {
      NeutralRunShared(ts, i, e, q);
    }
  }

  /**
   A neutral after a character that gives direction `t`: the run takes it if what
   follows gives the same one.  Returns the last position dealt with.
   */
  method TakeDirection(types: array<Byte>, start: nat, t: Byte, ghost ts: seq<Byte>) returns (i: nat)
    requires 0 < start < types.Length - 1 && |ts| == types.Length && t != ON
    requires forall q :: start <= q < |ts| ==> types[q] == ts[q]
    requires ts[start] == ON && ts[start - 1] != ON && Direction(ts[start - 1]) == t
    modifies types
    ensures start <= i <= types.Length - 1
    ensures forall q :: 0 <= q < start ==> types[q] == old(types[q])
    ensures forall q :: start <= q <= i && q < |ts| - 1 ==> types[q] == N1At(ts, q)
    ensures forall q :: i < q < |ts| || q == |ts| - 1 ==> types[q] == ts[q]
    ensures ts[i] == ON ==> N1At(ts, i) == ON
  {
    i := start;
    var j := SkipNeutrals(types, i);
    InteriorRun(ts, start, j);
    if Direction(types[j]) == t {
      Fill(types, i, j, t);
      i := j;
    }
  }

  /** One turn of the loop over the interior, at position `start`. */
  method ResolveNeutralAt(types: array<Byte>, start: nat, ghost ts: seq<Byte>) returns (i: nat)
    requires 0 < start < types.Length - 1 && |ts| == types.Length
    requires forall q :: 0 <= q < start ==> types[q] == N1At(ts, q)
    requires forall q :: start <= q < |ts| ==> types[q] == ts[q]
    requires ts[start - 1] == ON && ts[start] == ON ==> N1At(ts, start) == ON
    modifies types
    ensures start < i <= types.Length
    ensures forall q :: 0 <= q < i && q < |ts| - 1 ==> types[q] == N1At(ts, q)
    ensures forall q :: i <= q < |ts| || q == |ts| - 1 ==> types[q] == ts[q]
    ensures i < |ts| && ts[i - 1] == ON && ts[i] == ON ==> N1At(ts, i) == ON
  {
    i := start;
    if types[i] == ON {
      NeutralAfter(ts, i);
      if types[i - 1] == L {
        i := TakeDirection(types, i, L, ts);
      } else if types[i - 1] == R || types[i - 1] == EN || types[i - 1] == AN {
        i := TakeDirection(types, i, R, ts);
      }
    }
    if i + 1 < |ts| && ts[i] == ON && ts[i + 1] == ON {
      NeighboursAlike(ts, i + 1);
    }
    i := i + 1;
  }

  /** What precedes a neutral decides what the loop can do with it. */
  lemma {:induction false} NeutralAfter(ts: seq<Byte>, i: nat)
    requires 0 < i < |ts| - 1 && ts[i] == ON
    ensures ts[i - 1] == ON ==> N1At(ts, i - 1) == N1At(ts, i)
    ensures ts[i - 1] != ON ==> N1At(ts, i - 1) == ts[i - 1]
    ensures ts[i - 1] != ON && Direction(ts[i - 1]) == ON ==> N1At(ts, i) == ON
  {
    if ts[i - 1] == ON {
      NeighboursAlike(ts, i);
    } else {
      var e := NeutralEnd(ts, i);
      NeutralEndShape(ts, i);
      InteriorRun(ts, i, if e < |ts| then e else |ts| - 1);
    }
  }

  /** The start of the line, before the loop. */
  method ResolveFirst(types: array<Byte>)
    requires types.Length >= 2
    modifies types
    ensures types[..] == old(types[..][0 := N1At(types[..], 0)])
  {
    if types[0] == ON {
      LeadingNeutral(types[..]);
      if types[1] == R || types[1] == EN || types[1] == AN {
        types[0] := R;
      } else if types[1] == L {
        types[0] := L;
      }
    }
  }

  /** The end of the line, after the loop. */
  method ResolveLast(types: array<Byte>, ghost ts: seq<Byte>)
    requires types.Length == |ts| >= 2
    requires types[|ts| - 1] == ts[|ts| - 1] && types[|ts| - 2] == N1At(ts, |ts| - 2)
    modifies types
    ensures types[..] == old(types[..])[|ts| - 1 := N1At(ts, |ts| - 1)]
  {
    var count := types.Length;
    if types[count - 1] == ON {
      if ts[count - 2] == ON {
        NeighboursAlike(ts, count - 1);
      }
      if types[count - 2] == R || types[count - 2] == EN || types[count - 2] == AN {
        types[count - 1] := R;
      } else if types[count - 2] == L {
        types[count - 1] := L;
      }
    }
  }

  method ApplyN1(types: array<Byte>)
    modifies types
    ensures types[..] == N1(old(types[..]))
  {
    ghost var ts := types[..];
    var count := types.Length;
    if count < 2 {
      return;
    }
    ResolveFirst(types);
    if ts[0] == ON {
      LeadingNeutral(ts);
    }
    var i := 1;
    while i < count - 1
      invariant 1 <= i <= count
      invariant forall q :: 0 <= q < i && q < count - 1 ==> types[q] == N1At(ts, q)
      invariant forall q :: i <= q < count || q == count - 1 ==> types[q] == ts[q]
      invariant i < count && ts[i - 1] == ON && ts[i] == ON ==> N1At(ts, i) == ON
    {
      i := ResolveNeutralAt(types, i, ts);
    }
    ResolveLast(types, ts);
  }

  function N2At(ts: seq<Byte>, levels: seq<Byte>, i: nat): Byte
    requires i < |ts| == |levels|
  {
    if ts[i] != ON then ts[i] else if levels[i] % 2 == 0 then L else R
  }

  function N2(ts: seq<Byte>, levels: seq<Byte>): (r: seq<Byte>)
    requires |ts| == |levels|
    ensures |r| == |ts|
  {
    seq(|ts|, i requires 0 <= i < |ts| => N2At(ts, levels, i))
  }

  method ApplyN2(types: array<Byte>, levels: array<Byte>)
    requires types.Length == levels.Length && types != levels
    modifies types
    ensures types[..] == N2(old(types[..]), levels[..])
  {
    ghost var ts, lv := types[..], levels[..];
    var i := 0;
    while i < types.Length
      invariant 0 <= i <= types.Length && levels[..] == lv
      invariant forall q :: 0 <= q < i ==> types[q] == N2At(ts, lv, q)
      invariant forall q :: i <= q < types.Length ==> types[q] == ts[q]
    {
      if types[i] == ON {
        if levels[i] % 2 == 0 {
          types[i] := L;
        } else {
          types[i] := R;
        }
      }
      i := i + 1;
    }
  }

  // ------------------------------------------------------------------
  // I1 and I2: levels from types (a level is a byte and wraps at 256)

  function Raised(level: Byte, step: int): Byte {
    (level as int + step) % 256
  }

  function ImplicitAt(ts: seq<Byte>, levels: seq<Byte>, i: nat): Byte
    requires i < |ts| == |levels|
  {
    if levels[i] % 2 == 0 then
      if ts[i] == R then levels[i] + 1
      else if ts[i] == AN || ts[i] == EN then Raised(levels[i], 2)
      else levels[i]
    else
      if ts[i] == L || ts[i] == EN || ts[i] == AN then Raised(levels[i], 1) else levels[i]
  }

  function Implicit(ts: seq<Byte>, levels: seq<Byte>): (r: seq<Byte>)
    requires |ts| == |levels|
    ensures |r| == |ts|
  {
    seq(|ts|, i requires 0 <= i < |ts| => ImplicitAt(ts, levels, i))
  }

  function RaiseEven(t: Byte, level: Byte): Byte {
    if level % 2 == 1 then level
    else if t == R then level + 1
    else if t == AN || t == EN then Raised(level, 2)
    else level
  }

  function RaiseOdd(t: Byte, level: Byte): Byte {
    if level % 2 == 1 && (t == L || t == EN || t == AN) then Raised(level, 1) else level
  }

  lemma RaisedTwice(ts: seq<Byte>, levels: seq<Byte>, i: nat)
    requires i < |ts| == |levels|
    ensures RaiseOdd(ts[i], RaiseEven(ts[i], levels[i])) == ImplicitAt(ts, levels, i)
  {
  }

  /** Two passes: what the first one makes odd, the second one leaves alone. */
  method ApplyImplicit(types: array<Byte>, levels: array<Byte>)
    requires types.Length == levels.Length && types != levels
    modifies levels
    ensures levels[..] == Implicit(types[..], old(levels[..]))
  {
    hide ImplicitAt, Raised;
    ghost var ts, lv := types[..], levels[..];
    var i := 0;
    while i < levels.Length
      invariant 0 <= i <= levels.Length && types[..] == ts
      invariant forall q :: 0 <= q < i ==> levels[q] == RaiseEven(ts[q], lv[q])
      invariant forall q :: i <= q < levels.Length ==> levels[q] == lv[q]
    {
      if levels[i] % 2 == 0 {
        if types[i] == R {
          levels[i] := levels[i] + 1;
        } else if types[i] == AN || types[i] == EN {
          levels[i] := Raised(levels[i], 2);
        }
      }
      i := i + 1;
    }
    i := 0;
    while i < levels.Length
      invariant 0 <= i <= levels.Length && types[..] == ts
      invariant forall q :: 0 <= q < i ==> levels[q] == ImplicitAt(ts, lv, q)
      invariant forall q :: i <= q < levels.Length ==> levels[q] == RaiseEven(ts[q], lv[q])
    {
      RaisedTwice(ts, lv, i);
      if levels[i] % 2 == 1 {
        if types[i] == L || types[i] == EN || types[i] == AN {
          levels[i] := Raised(levels[i], 1);
        }
      }
      i := i + 1;
    }
  }

  // ------------------------------------------------------------------
  // L1: separators, and white space before them or at the end of the line

  /** First position at or after `i` that is not white space, or the end of the line. */
  function SpaceEnd(raw: seq<Byte>, i: nat): (e: nat)
    requires i <= |raw|
    ensures i <= e <= |raw|
    decreases |raw| - i
  {
    if i < |raw| && raw[i] == WS then SpaceEnd(raw, i + 1) else i
  }

  /** The original types decide, not the resolved ones. */
  predicate Resets(raw: seq<Byte>, i: nat)
    requires i < |raw|
  {
    var e := SpaceEnd(raw, i);
    e == |raw| || raw[e] == B || raw[e] == S
  }

  function L1At(raw: seq<Byte>, levels: seq<Byte>, paragraphLevel: Byte, i: nat): Byte
    requires i < |raw| == |levels|
  {
    if Resets(raw, i) then paragraphLevel else levels[i]
  }

  function L1(raw: seq<Byte>, levels: seq<Byte>, paragraphLevel: Byte): (r: seq<Byte>)
    requires |raw| == |levels|
    ensures |r| == |raw|
  {
    seq(|raw|, i requires 0 <= i < |raw| => L1At(raw, levels, paragraphLevel, i))
  }

  lemma {:induction false} SpaceEndIs(raw: seq<Byte>, i: nat, e: nat)
    requires i <= e <= |raw| && (e < |raw| ==> raw[e] != WS) && forall q :: i <= q < e ==> raw[q] == WS
    ensures SpaceEnd(raw, i) == e
    decreases e - i
  {
    if i < e {
      SpaceEndIs(raw, i + 1, e);
    }
  }

  /** The white space of one run is reset together. */
  lemma SpacesShareReset(raw: seq<Byte>, i: nat, e: nat)
    requires i < e <= |raw| && (e < |raw| ==> raw[e] != WS) && forall q :: i <= q < e ==> raw[q] == WS
    ensures forall q :: i <= q < e ==> Resets(raw, q) == (e == |raw| || raw[e] == B || raw[e] == S)
  {
    forall q | i <= q < e
      ensures Resets(raw, q) == (e == |raw| || raw[e] == B || raw[e] == S)
    {
      SpaceEndIs(raw, q, e);
    }
  }

  method ResetStretch(levels: array<Byte>, i: nat, e: nat, level: Byte)
    requires i <= e <= levels.Length
    modifies levels
    ensures forall q :: i <= q < e ==> levels[q] == level
    ensures forall q :: 0 <= q < i || e <= q < levels.Length ==> levels[q] == old(levels[q])
  {
    var j: int := e - 1;
    while j >= i
      invariant i - 1 <= j < e
      invariant forall q :: j < q < e ==> levels[q] == level
      invariant forall q :: 0 <= q <= j || e <= q < levels.Length ==> levels[q] == old(levels[q])
    {
      levels[j] := level;
      j := j - 1;
    }
  }

  /** The trailing white space, except that the scan stops at the first character. */
  method ResetTrailing(raw: seq<Byte>, levels: array<Byte>, paragraphLevel: Byte)
    requires levels.Length == |raw| > 0
    modifies levels
    ensures forall q :: 0 <= q < |raw| ==>
      levels[q] == old(levels[q]) || (levels[q] == paragraphLevel && Resets(raw, q))
  {
    var j := |raw| - 1;
    while j > 0 && raw[j] == WS
      invariant 0 <= j <= |raw| - 1
      invariant forall q :: j < q < |raw| ==> raw[q] == WS
    {
      j := j - 1;
    }
    if j < |raw| - 1 {
      SpacesShareReset(raw, j + 1, |raw|);
      ResetStretch(levels, j + 1, |raw|, paragraphLevel);
    }
  }

  method ApplyL1(raw: seq<Byte>, levels: array<Byte>, paragraphLevel: Byte)
    requires levels.Length == |raw| > 0
    modifies levels
    ensures levels[..] == L1(raw, old(levels[..]), paragraphLevel)
  {
    ghost var lv := levels[..];
    ResetTrailing(raw, levels, paragraphLevel);
    var i := 0;
    while i < |raw|
      invariant 0 <= i <= |raw|
      invariant forall q :: 0 <= q < i ==> levels[q] == L1At(raw, lv, paragraphLevel, q)
      invariant forall q :: i <= q < |raw| ==>
        levels[q] == lv[q] || (levels[q] == paragraphLevel && Resets(raw, q))
    {
      if raw[i] == WS {
        var j := i;
        while j < |raw| && raw[j] == WS
          invariant i <= j <= |raw|
          invariant forall q :: i <= q < j ==> raw[q] == WS
        {
          j := j + 1;
        }
        SpacesShareReset(raw, i, j);
        if j == |raw| || raw[j] == B || raw[j] == S {
          ResetStretch(levels, i, j, paragraphLevel);
        }
      } else if raw[i] == B || raw[i] == S {
        levels[i] := paragraphLevel;
      }
      i := i + 1;
    }
  }
}
