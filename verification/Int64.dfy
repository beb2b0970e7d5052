/**
 64-bit unsigned arithmetic on pairs of 32-bit words, as the program does it where the C
 compiler has no wider type: division by ten, addition with a carry found by comparing,
 subtraction, shifts, and decimal text in both directions.

 A word here is the machine's 32-bit `unsigned long`, as on Windows.  What the machine
 drops at the top of a result is dropped explicitly, and the value of a pair is a number
 below 2^64, so that the theorems can be stated about ordinary numbers.
 */
module Int64 {
  import opened Bytes

  const WORD: nat := 0x1_0000_0000

  type Word = w: int | 0 <= w < WORD

  datatype U64 = U64(hi: Word, lo: Word)

  /** What the machine keeps of a result. */
  function Wrap(n: int): Word {
    n % WORD
  }

  lemma WrapSmall(n: int)
    requires 0 <= n < WORD
    ensures Wrap(n) == n
  {
  }

  lemma WrapIs(n: int)
    ensures Wrap(n) == n % WORD
  {
  }

  function Value(x: U64): (v: nat)
    ensures v < WORD * WORD
  {
    x.hi * 0x1_0000_0000 + x.lo
  }

  /** The number with a given value, modulo 2^64. */
  function FromValue(v: int): U64 {
    U64(v / WORD % WORD, v % WORD)
  }

  lemma ValueOfFromValue(v: int)
    ensures Value(FromValue(v)) == v % (WORD * WORD)
  {
    var q, r := v / WORD, v % WORD;
    assert v == q * WORD + r;
    var qq, qr := q / WORD, q % WORD;
    assert v == qq * (WORD * WORD) + (qr * WORD + r);
    ModuloIs(v, WORD * WORD, qq, qr * WORD + r);
  }

  lemma FromValueOfValue(x: U64)
    ensures FromValue(Value(x)) == x
  {
  }

  /** The machine's quotient and remainder are the only ones. */
  lemma ModuloIs(n: int, m: nat, q: int, r: int)
    requires m > 0 && n == q * m + r && 0 <= r < m
    ensures n % m == r && n / m == q
  {
    Unique(m, q, r, n / m, n % m);
  }

  lemma Unique(m: nat, q: int, r: int, q2: int, r2: int)
    requires q * m + r == q2 * m + r2 && 0 <= r < m && 0 <= r2 < m
    ensures q == q2 && r == r2
  {
    assert (q - q2) * m == q * m - q2 * m && (q2 - q) * m == q2 * m - q * m;
    if q > q2 {
      AtLeast(q - q2, m);
    } else if q < q2 {
      AtLeast(q2 - q, m);
    }
  }

  lemma {:induction false} AtLeast(k: int, m: nat)
    requires k >= 1
    ensures k * m >= m && k * m >= k * (if m > 0 then 1 else 0)
    decreases k
  {
    if k > 1 {
      AtLeast(k - 1, m);
      assert k * m == (k - 1) * m + m;
    }
  }

  // ------------------------------------------------------------------
  // Division by ten

  /** The quotient and remainder, put together from those of the two words. */
  function Div10(x: U64): (U64, nat) {
    var rem, r2 := x.lo as int % 10, x.hi as int % 10;
    var lo := Wrap(Wrap(x.lo as int / 10) + Wrap(r2 * 429496729));
    var rem2 := rem + r2 * 6;
    (U64(x.hi / 10, Wrap(lo + rem2 / 10)), rem2 % 10)
  }

  /** It is exact, and no word overflows on the way. */
  lemma Div10IsExact(x: U64)
    ensures Value(Div10(x).0) == Value(x) / 10 && Div10(x).1 == Value(x) % 10
    ensures var rem, r2 := x.lo as int % 10, x.hi as int % 10;
      r2 * 429496729 < WORD && x.lo as int / 10 + r2 * 429496729 + (rem + r2 * 6) / 10 < WORD
  {
    hide Wrap;
    var hi: nat, lo: nat := x.hi, x.lo;
    var rem, r2 := lo % 10, hi % 10;
    var rem2 := rem + r2 * 6;
    WrapSmall(lo / 10);
    WrapSmall(r2 * 429496729);
    WrapSmall(lo / 10 + r2 * 429496729);
    WrapSmall(lo / 10 + r2 * 429496729 + rem2 / 10);
    TenWords(hi / 10, r2, lo / 10, rem, rem2 / 10, rem2 % 10);
    ModuloIs(hi * WORD + lo, 10, hi / 10 * WORD + (lo / 10 + r2 * 429496729 + rem2 / 10), rem2 % 10);
  }

  lemma TenWords(h: nat, r2: nat, l: nat, rem: nat, c: nat, d: nat)
    requires r2 < 10 && rem < 10 && rem + r2 * 6 == 10 * c + d && 10 * l + rem < WORD
    ensures l + r2 * 429496729 + c < WORD
    ensures (10 * h + r2) * WORD + (10 * l + rem) == (h * WORD + (l + r2 * 429496729 + c)) * 10 + d
  {
  }

  // ------------------------------------------------------------------
  // Addition and subtraction

  function Add(x: U64, y: U64): U64 {
    var lo := Wrap(x.lo as int + y.lo);
    U64(Wrap(x.hi as int + y.hi + (if lo < y.lo then 1 else 0)), lo)
  }

  function Add32(x: U64, y: Word): U64 {
    Add(x, U64(0, y))
  }

  /** The borrow shows in the difference being larger than the complement of what was taken away. */
  function Subtract(x: U64, y: U64): U64 {
    var lo := Wrap(x.lo as int - y.lo);
    U64(Wrap(x.hi as int - y.hi - (if lo as int > 0xffff_ffff - y.lo then 1 else 0)), lo)
  }

  /** The carry is found by comparing, and the sum is that of the values modulo 2^64. */
  lemma AddIsSum(x: U64, y: U64)
    ensures Value(Add(x, y)) == (Value(x) + Value(y)) % (WORD * WORD)
  {
    var s: int := x.lo as int + y.lo;
    var carry := if s >= WORD then 1 else 0;
    assert Wrap(s) == s - carry * WORD;
    var t := x.hi as int + y.hi + carry;
    var over := if t >= WORD then 1 else 0;
    assert Wrap(t) == t - over * WORD;
    ModuloIs(Value(x) + Value(y), WORD * WORD, over, Value(Add(x, y)));
  }

  lemma SubtractIsDifference(x: U64, y: U64)
    ensures Value(Subtract(x, y)) == (Value(x) - Value(y)) % (WORD * WORD)
  {
    var d: int := x.lo as int - y.lo;
    var borrow := if d < 0 then 1 else 0;
    assert Wrap(d) == d + borrow * WORD;
    var t := x.hi as int - y.hi - borrow;
    var under := if t < 0 then 1 else 0;
    assert Wrap(t) == t + under * WORD;
    ModuloIs(Value(x) - Value(y), WORD * WORD, -under, Value(Subtract(x, y)));
  }

  /** Adding and taking away undo each other. */
  lemma AddSubtractInverse(x: U64, y: U64)
    ensures Subtract(Add(x, y), y) == x && Add(Subtract(x, y), y) == x
  {
    hide Add, Subtract, Value, FromValue;
    AddIsSum(x, y);
    SubtractIsDifference(Add(x, y), y);
    SubtractIsDifference(x, y);
    AddIsSum(Subtract(x, y), y);
    ModuloInverse(Value(x), Value(y), WORD * WORD);
    FromValueOfValue(x);
    FromValueOfValue(Subtract(Add(x, y), y));
    FromValueOfValue(Add(Subtract(x, y), y));
  }

  lemma ModuloInverse(a: nat, b: nat, m: nat)
    requires a < m
    ensures ((a + b) % m - b) % m == a && ((a - b) % m + b) % m == a
  {
    var q1, r1, q2, r2 := (a + b) / m, (a + b) % m, (a - b) / m, (a - b) % m;
    assert a + b == q1 * m + r1 && a - b == q2 * m + r2;
    assert -q1 * m == -(q1 * m) && -q2 * m == -(q2 * m);
    ModuloIs(r1 - b, m, -q1, a);
    ModuloIs(r2 + b, m, -q2, a);
  }

  function Compare(x: U64, y: U64): int {
    if x.hi != y.hi then (if x.hi < y.hi then -1 else 1)
    else if x.lo != y.lo then (if x.lo < y.lo then -1 else 1)
    else 0
  }

  lemma CompareIsOrder(x: U64, y: U64)
    ensures Compare(x, y) < 0 <==> Value(x) < Value(y)
    ensures Compare(x, y) == 0 <==> x == y
    ensures Compare(x, y) > 0 <==> Value(x) > Value(y)
  {
  }

  // ------------------------------------------------------------------
  // Shifts

  lemma {:induction false} Pow2Sum(a: nat, b: nat)
    ensures Pow2(a + b) == Pow2(a) * Pow2(b)
  {
    if a > 0 {
      Pow2Sum(a - 1, b);
      assert Pow2(a + b) == 2 * (Pow2(a - 1) * Pow2(b)) == Pow2(a) * Pow2(b);
    }
  }

  lemma Pow2Of32()
    ensures Pow2(32) == WORD
  {
    Pow2Of16();
    Pow2Sum(16, 16);
  }

  lemma Pow2Of16()
    ensures Pow2(16) == 0x1_0000
  {
    assert Pow2(4) == 16;
    Pow2Sum(4, 4);
    Pow2Sum(8, 8);
  }

  /** Bitwise or. */
  function Or(x: nat, y: nat): nat
    decreases x + y
  {
    if x == 0 && y == 0 then 0 else 2 * Or(x / 2, y / 2) + (if x % 2 == 1 || y % 2 == 1 then 1 else 0)
  }

  lemma {:induction false} OrCommutes(x: nat, y: nat)
    ensures Or(x, y) == Or(y, x)
    decreases x + y
  {
    if x > 0 || y > 0 {
      OrCommutes(x / 2, y / 2);
    }
  }

  lemma {:induction false} OrNothing(y: nat)
    ensures Or(0, y) == y
  {
    if y > 0 {
      OrNothing(y / 2);
    }
  }

  /** Parts that have no bit in common: or and addition are the same. */
  lemma {:induction false} OrDisjoint(low: nat, q: nat, k: nat)
    requires low < Pow2(k)
    ensures Or(low, q * Pow2(k)) == low + q * Pow2(k)
  {
    var high := q * Pow2(k);
    if k == 0 {
      OrNothing(high);
    } else if low > 0 || high > 0 {
      var half := q * Pow2(k - 1);
      assert high == 2 * half;
      OrDisjoint(low / 2, q, k - 1);
    }
  }

  /** A shift to the right within the words: the bits that leave the upper word enter the lower one. */
  function NearRight(x: U64, shift: nat): U64
    requires shift < 32
  {
    U64(Wrap(x.hi as int / Pow2(shift)),
        Wrap(Or(Wrap(x.lo as int / Pow2(shift)), Wrap(x.hi as int * Pow2(32 - shift)))))
  }

  function NearLeft(x: U64, shift: nat): U64
    requires shift < 32
  {
    U64(Wrap(Or(Wrap(x.hi as int * Pow2(shift)), Wrap(x.lo as int / Pow2(32 - shift)))),
        Wrap(x.lo as int * Pow2(shift)))
  }

  /** A shift by 0 would move a word by its whole width, which C leaves undefined. */
  function ShiftRight(x: U64, shift: nat): U64
    requires 0 < shift < 64
  {
    if shift < 32 then NearRight(x, shift)
    else U64(0, Wrap(x.hi as int / Pow2(shift - 32)))
  }

  function ShiftLeft(x: U64, shift: nat): U64
    requires 0 < shift < 64
  {
    if shift < 32 then NearLeft(x, shift)
    else U64(Wrap(x.lo as int * Pow2(shift - 32)), 0)
  }

  /** The bits of a word that are moved out at the top are lost. */
  lemma MovedUp(w: nat, a: nat, b: nat)
    requires a > 0 && b > 0
    ensures w * b % (a * b) == w % a * b && w % a * b <= a * b - b
  {
    var q, r := w / a, w % a;
    assert w == q * a + r;
    assert w * b == (q * a + r) * b == q * (a * b) + r * b;
    assert r * b <= (a - 1) * b == a * b - b;
    ModuloIs(w * b, a * b, q, r * b);
  }

  lemma DivideBelow(w: nat, a: nat, b: nat)
    requires a > 0 && w < a * b
    ensures w / a < b && w / a <= w
  {
    var q, r := w / a, w % a;
    assert w == q * a + r;
    Bounded(w, a, b, q, r);
  }

  lemma Bounded(w: nat, a: nat, b: nat, q: nat, r: nat)
    requires a > 0 && w == q * a + r && w < a * b
    ensures q < b && q <= w
  {
    assert q * a == (q - b) * a + b * a;
    if q > b {
      AtLeast(q - b, a);
    }
    if q > 0 {
      AtLeast(q, a);
    }
  }

  lemma ShiftRightIsQuotient(x: U64, shift: nat)
    requires 0 < shift < 64
    ensures Value(ShiftRight(x, shift)) == Value(x) / Pow2(shift)
  {
    hide Wrap, Pow2, Value, NearRight;
    Pow2Of32();
    if shift < 32 {
      Pow2Sum(shift, 32 - shift);
      NearRightIs(x, shift);
    } else {
      Pow2Sum(32, shift - 32);
      FarRightIs(x, Pow2(shift - 32));
    }
  }

  lemma NearRightIs(x: U64, shift: nat)
    requires shift < 32
    ensures Value(NearRight(x, shift)) == Value(x) / Pow2(shift)
  {
    hide Wrap, Or, Pow2;
    Pow2Of32();
    Pow2Sum(shift, 32 - shift);
    ShiftRightWords(x.hi, x.lo, Pow2(shift), Pow2(32 - shift));
    MergedRight(x.hi, x.lo, shift, Pow2(shift), Pow2(32 - shift));
  }

  /** The two words after a shift to the right. */
  lemma MergedRight(hi: nat, lo: nat, shift: nat, a: nat, b: nat)
    requires shift < 32 && b == Pow2(32 - shift) && a > 0 && a * b == WORD && hi < WORD && lo < WORD
    requires hi / a < WORD && lo / a < b && lo / a + hi * b % WORD < WORD
    ensures Wrap(hi / a) == hi / a
    ensures Wrap(Or(Wrap(lo / a), Wrap(hi * b))) == lo / a + hi * b % WORD
  {
    hide Wrap, Or, Pow2;
    MovedUp(hi, a, b);
    OrDisjoint(lo / a, hi % a, 32 - shift);
    Wrapped(hi / a, lo / a, hi * b);
  }

  lemma Wrapped(whole: nat, low: nat, moved: nat)
    requires whole < WORD && low + moved % WORD < WORD
    ensures Wrap(whole) == whole && Wrap(low) == low && Wrap(moved) == moved % WORD
    ensures Wrap(low + moved % WORD) == low + moved % WORD
  {
  }

  lemma FarRightIs(x: U64, a: nat)
    requires a > 0
    ensures Value(U64(0, Wrap(x.hi as int / a))) == Value(x) / (WORD * a)
  {
    hide Wrap;
    var hi: nat, lo: nat := x.hi, x.lo;
    AtLeast(a, WORD);
    DivideBelow(hi, a, WORD);
    WrapSmall(hi / a);
    ShiftRightFar(hi, lo, a);
  }

  lemma ShiftRightWords(hi: nat, lo: nat, a: nat, b: nat)
    requires a > 0 && b > 0 && a * b == WORD && hi < WORD && lo < WORD
    ensures hi / a < WORD && lo / a < b && lo / a + hi * b % WORD < WORD
    ensures hi / a * WORD + (lo / a + hi * b % WORD) == (hi * WORD + lo) / a
  {
    MovedUp(hi, a, b);
    DivideBelow(lo, a, b);
    DivideBelow(hi, a, b);
    RightQuotient(hi, lo, a, b, hi / a, hi % a, lo / a, lo % a);
  }

  lemma RightQuotient(hi: nat, lo: nat, a: nat, b: nat, h1: nat, h0: nat, l1: nat, l0: nat)
    requires a > 0 && a * b == WORD && hi == h1 * a + h0 && lo == l1 * a + l0 && l0 < a
    ensures h1 * WORD + (l1 + h0 * b) == (hi * WORD + lo) / a
  {
    RightWords(h1, h0, l1, l0, a, b);
    ModuloIs(hi * WORD + lo, a, h1 * WORD + (l1 + h0 * b), l0);
  }

  lemma RightWords(h1: nat, h0: nat, l1: nat, l0: nat, a: nat, b: nat)
    requires a * b == WORD
    ensures (h1 * a + h0) * WORD + (l1 * a + l0) == (h1 * WORD + (l1 + h0 * b)) * a + l0
  {
    assert (h1 * a + h0) * WORD == h1 * a * WORD + h0 * WORD;
    assert h0 * WORD == h0 * b * a;
    assert h1 * a * WORD == h1 * WORD * a;
    assert (h1 * WORD + (l1 + h0 * b)) * a == h1 * WORD * a + (l1 * a + h0 * b * a);
  }

  lemma ShiftRightFar(hi: nat, lo: nat, a: nat)
    requires a > 0 && lo < WORD
    ensures hi / a == (hi * WORD + lo) / (WORD * a)
  {
    var q, r := hi / a, hi % a;
    assert hi == q * a + r;
    assert hi * WORD + lo == q * (WORD * a) + (r * WORD + lo);
    assert r * WORD + lo < WORD * a;
    ModuloIs(hi * WORD + lo, WORD * a, q, r * WORD + lo);
  }

  lemma ShiftLeftIsProduct(x: U64, shift: nat)
    requires 0 < shift < 64
    ensures Value(ShiftLeft(x, shift)) == Value(x) * Pow2(shift) % (WORD * WORD)
  {
    hide Wrap, Pow2, Value, NearLeft;
    Pow2Of32();
    if shift < 32 {
      Pow2Sum(shift, 32 - shift);
      NearLeftIs(x, shift);
    } else {
      Pow2Sum(32, shift - 32);
      FarLeftIs(x, Pow2(shift - 32));
    }
  }

  lemma NearLeftIs(x: U64, shift: nat)
    requires shift < 32
    ensures Value(NearLeft(x, shift)) == Value(x) * Pow2(shift) % (WORD * WORD)
  {
    hide Wrap, Or, Pow2;
    Pow2Of32();
    Pow2Sum(shift, 32 - shift);
    ShiftLeftWords(x.hi, x.lo, Pow2(shift), Pow2(32 - shift));
    MergedLeft(x.hi, x.lo, shift, Pow2(shift), Pow2(32 - shift));
  }

  /** The two words after a shift to the left. */
  lemma MergedLeft(hi: nat, lo: nat, shift: nat, a: nat, b: nat)
    requires shift < 32 && a == Pow2(shift) && b > 0 && a * b == WORD && hi < WORD && lo < WORD
    requires lo / b < a && hi * a % WORD + lo / b < WORD
    ensures Wrap(lo * a) == lo * a % WORD
    ensures Wrap(Or(Wrap(hi * a), Wrap(lo / b))) == hi * a % WORD + lo / b
  {
    hide Wrap, Or, Pow2;
    assert b * a == WORD;
    MovedUp(hi, b, a);
    OrDisjoint(lo / b, hi % b, shift);
    OrCommutes(lo / b, hi * a % WORD);
    Wrapped(0, lo / b, hi * a);
    WrapIs(lo * a);
  }

  lemma FarLeftIs(x: U64, a: nat)
    requires a > 0
    ensures Value(U64(Wrap(x.lo as int * a), 0)) == Value(x) * (WORD * a) % (WORD * WORD)
  {
    hide Wrap;
    WrapIs(x.lo as int * a);
    ShiftLeftFar(x.hi, x.lo, a);
  }

  lemma ShiftLeftWords(hi: nat, lo: nat, a: nat, b: nat)
    requires a > 0 && b > 0 && a * b == WORD && hi < WORD && lo < WORD
    ensures lo / b < a && hi * a % WORD + lo / b < WORD
    ensures (hi * a % WORD + lo / b) * WORD + lo * a % WORD == (hi * WORD + lo) * a % (WORD * WORD)
  {
    assert b * a == WORD;
    MovedUp(hi, b, a);
    MovedUp(lo, b, a);
    DivideBelow(lo, b, a);
    LowWordMoved(lo, a, b);
    HighWordMoved(hi, a);
    var q, r := hi * a / WORD, hi * a % WORD;
    var rest := (r + lo / b) * WORD + lo * a % WORD;
    assert rest == r * WORD + lo * a;
    TwoWordsMoved(hi, lo, a, q, r);
    ModuloIs((hi * WORD + lo) * a, WORD * WORD, q, rest);
  }

  lemma LowWordMoved(lo: nat, a: nat, b: nat)
    requires b > 0 && b * a == WORD && lo * a % (b * a) == lo % b * a
    ensures lo * a == lo / b * WORD + lo * a % WORD
  {
    var q, r := lo / b, lo % b;
    assert lo == q * b + r;
    assert lo * a == (q * b + r) * a == q * (b * a) + r * a;
  }

  lemma HighWordMoved(hi: nat, a: nat)
    ensures hi * a == hi * a / WORD * WORD + hi * a % WORD
  {
  }

  lemma TwoWordsMoved(hi: nat, lo: nat, a: nat, q: nat, r: nat)
    requires hi * a == q * WORD + r
    ensures (hi * WORD + lo) * a == q * (WORD * WORD) + (r * WORD + lo * a)
  {
    assert (hi * WORD + lo) * a == hi * a * WORD + lo * a;
  }

  lemma ShiftLeftFar(hi: nat, lo: nat, a: nat)
    requires a > 0 && lo < WORD
    ensures lo * a % WORD * WORD == (hi * WORD + lo) * (WORD * a) % (WORD * WORD)
  {
    var q, r := lo * a / WORD, lo * a % WORD;
    assert lo * a == q * WORD + r;
    assert (hi * WORD + lo) * (WORD * a) == hi * a * (WORD * WORD) + lo * a * WORD;
    assert lo * a * WORD == q * (WORD * WORD) + r * WORD;
    var k := hi * a + q;
    assert (hi * WORD + lo) * (WORD * a) == k * (WORD * WORD) + r * WORD;
    ModuloIs((hi * WORD + lo) * (WORD * a), WORD * WORD, k, r * WORD);
  }

  // ------------------------------------------------------------------
  // Decimal

  predicate IsDigit(c: char) {
    '0' <= c <= '9'
  }

  function DigitValue(c: char): (d: nat)
    requires IsDigit(c)
    ensures d < 10
  {
    (c as int) - ('0' as int)
  }

  function Digit(d: nat): (c: char)
    requires d < 10
    ensures IsDigit(c) && DigitValue(c) == d
  {
    ('0' as int + d) as char
  }

  predicate Digits(s: string) {
    forall i :: 0 <= i < |s| ==> IsDigit(s[i])
  }

  function DecimalValue(s: string): nat
    requires Digits(s)
  {
    if s == "" then 0 else 10 * DecimalValue(s[..|s| - 1]) + DigitValue(s[|s| - 1])
  }

  /** How many digits a text starts with. */
  function Leading(s: string): (n: nat)
    ensures n <= |s| && Digits(s[..n]) && (n < |s| ==> !IsDigit(s[n]))
  {
    if s == "" || !IsDigit(s[0]) then 0
    else
      var n := 1 + Leading(s[1..]);
      assert s[..n] == [s[0]] + s[1..][..n - 1];
      n
  }

  lemma TimesTen(x: U64)
    ensures Value(Add(ShiftLeft(x, 3), ShiftLeft(x, 1))) == 10 * Value(x) % (WORD * WORD)
  {
    hide ShiftLeft, Add, Value;
    var m := WORD * WORD;
    ShiftLeftIsProduct(x, 3);
    ShiftLeftIsProduct(x, 1);
    assert Pow2(1) == 2 && Pow2(2) == 4 && Pow2(3) == 8;
    AddIsSum(ShiftLeft(x, 3), ShiftLeft(x, 1));
    ModuloSum(Value(x) * 8, Value(x) * 2, m);
  }

  lemma ModuloSum(a: int, b: int, m: nat)
    requires m > 0
    ensures (a % m + b % m) % m == (a + b) % m
  {
    var s := a % m + b % m;
    assert a == a / m * m + a % m && b == b / m * m + b % m && s == s / m * m + s % m;
    assert a + b == (a / m + b / m + s / m) * m + s % m;
    ModuloIs(a + b, m, a / m + b / m + s / m, s % m);
  }

  /** One digit more: the value modulo 2^64 follows that of the digits. */
  lemma NextDigit(ret: U64, v: nat, d: Word)
    requires Value(ret) == v % (WORD * WORD) && d < 10
    ensures Value(Add32(Add(ShiftLeft(ret, 3), ShiftLeft(ret, 1)), d)) == (10 * v + d) % (WORD * WORD)
  {
    hide ShiftLeft, Add, Value;
    var m := WORD * WORD;
    var tens := Add(ShiftLeft(ret, 3), ShiftLeft(ret, 1));
    TimesTen(ret);
    AddIsSum(tens, U64(0, d));
    ValueOfWord(d);
    assert Value(tens) == 10 * (v % m) % m;
    ModuloTimes(10, v, m);
    ModuloSum(10 * v, d, m);
    ModuloIs(d, m, 0, d);
  }

  lemma ValueOfWord(d: Word)
    ensures Value(U64(0, d)) == d
  {
  }

  lemma ModuloTimes(k: nat, v: nat, m: nat)
    requires m > 0
    ensures k * (v % m) % m == k * v % m
  {
    var r := k * (v % m);
    assert v == v / m * m + v % m && r == r / m * m + r % m;
    assert k * v == k * (v / m) * m + r;
    assert k * v == (k * (v / m) + r / m) * m + r % m;
    ModuloIs(k * v, m, k * (v / m) + r / m, r % m);
  }

  /** Reads the digits a text starts with; the value is that of the digits modulo 2^64. */
  method FromDecimal(s: string) returns (ret: U64)
    ensures Value(ret) == DecimalValue(s[..Leading(s)]) % (WORD * WORD)
  {
    hide Add, Add32, ShiftLeft, Value;
    ret := U64(0, 0);
    var k := 0;
    ZeroIsZero();
    while k < |s| && IsDigit(s[k])
      invariant k <= |s| && Digits(s[..k]) && Value(ret) == DecimalValue(s[..k]) % (WORD * WORD)
    {
      assert s[..k + 1][..k] == s[..k];
      NextDigit(ret, DecimalValue(s[..k]), DigitValue(s[k]));
      ret := Add32(Add(ShiftLeft(ret, 3), ShiftLeft(ret, 1)), DigitValue(s[k]));
      k := k + 1;
    }
    LeadingIs(s, k);
  }

  lemma ZeroIsZero()
    ensures Value(U64(0, 0)) == 0 % (WORD * WORD) == 0
  {
  }

  lemma {:induction false} LeadingIs(s: string, k: nat)
    requires k <= |s| && Digits(s[..k]) && (k < |s| ==> !IsDigit(s[k]))
    ensures Leading(s) == k
  {
    if k > 0 {
      assert s[0] == s[..k][0];
      assert s[1..][..k - 1] == s[..k][1..];
      LeadingIs(s[1..], k - 1);
    }
  }

  /** No digits but the usual ones: no leading zero, except for zero itself. */
  predicate Canonical(s: string) {
    s != "" && Digits(s) && (|s| > 1 ==> s[0] != '0')
  }

  function Pow10(n: nat): (p: nat)
    ensures p > 0
  {
    if n == 0 then 1 else 10 * Pow10(n - 1)
  }

  lemma {:induction false} CanonicalIsLarge(s: string)
    requires Canonical(s) && s[0] != '0'
    ensures DecimalValue(s) >= Pow10(|s| - 1)
  {
    if |s| > 1 {
      CanonicalIsLarge(s[..|s| - 1]);
    }
  }

  lemma TwentyDigitsAreEnough()
    ensures Pow10(20) > WORD * WORD
  {
    assert Pow10(4) == 10000;
    assert Pow10(8) == 100000000;
    assert Pow10(12) == 1000000000000;
    assert Pow10(16) == 10000000000000000;
    assert Pow10(20) == 100000000000000000000;
  }

  /** What is written for a value. */
  function Written(v: nat): (s: string)
    ensures Digits(s) && s != ""
  {
    (if v < 10 then "" else Written(v / 10)) + [Digit(v % 10)]
  }

  lemma {:induction false} WrittenReadsBack(v: nat)
    ensures Canonical(Written(v)) && DecimalValue(Written(v)) == v
    ensures v > 0 ==> Written(v)[0] != '0'
  {
    var s := Written(v);
    var front := if v < 10 then "" else Written(v / 10);
    assert s[..|s| - 1] == front;
    if v >= 10 {
      WrittenReadsBack(v / 10);
      assert s[0] == front[0];
    }
  }

  lemma {:induction false} CanonicalIsWritten(s: string)
    requires Canonical(s)
    ensures Written(DecimalValue(s)) == s
  {
    var front := s[..|s| - 1];
    assert s == front + [s[|s| - 1]];
    if |s| > 1 {
      assert Canonical(front);
      CanonicalIsWritten(front);
      CanonicalIsLarge(front);
      assert DecimalValue(s) / 10 == DecimalValue(front);
    }
  }

  lemma WrittenIsShort(x: U64)
    ensures |Written(Value(x))| <= 20
  {
    hide Written;
    var s := Written(Value(x));
    WrittenReadsBack(Value(x));
    if |s| > 20 {
      CanonicalIsLarge(s);
      TwentyDigitsAreEnough();
      Pow10Grows(20, |s| - 1);
    }
  }

  lemma {:induction false} Pow10Grows(a: nat, b: nat)
    requires a <= b
    ensures Pow10(a) <= Pow10(b)
  {
    if a < b {
      Pow10Grows(a, b - 1);
    }
  }

  lemma LastDigit(v: nat, later: string)
    ensures Written(v) + later ==
      if v < 10 then [Digit(v % 10)] + later else Written(v / 10) + ([Digit(v % 10)] + later)
  {
  }

  /** Fills a buffer of twenty digits from the back. */
  method Decimal(x: U64) returns (s: string)
    ensures s == Written(Value(x))
  {
    hide Value, Div10, Written, Digit;
    var buf := new char[20];
    var start: nat := 20;
    var y := x;
    WrittenIsShort(x);
    var more := true;
    while more
      invariant start <= 20
      invariant more ==> Written(Value(x)) == Written(Value(y)) + buf[start..]
      invariant !more ==> Written(Value(x)) == buf[start..]
      decreases more, Value(y)
    {
      ghost var v, was := Value(y), buf[start..];
      Div10IsExact(y);
      LastDigit(v, was);
      var d := Div10(y).1;
      y := Div10(y).0;
      start := start - 1;
      buf[start] := Digit(d);
      assert buf[start..] == [Digit(d)] + was;
      ValueIsZero(y);
      more := y.hi != 0 || y.lo != 0;
    }
    s := buf[start..];
  }

  lemma ValueIsZero(x: U64)
    ensures Value(x) == 0 <==> x.hi == 0 && x.lo == 0
  {
  }

  /** Written out and read in, a number is the same; so is a text, if it was canonical and not too large. */
  lemma DecimalRoundTrip(x: U64, s: string)
    ensures Leading(Written(Value(x))) == |Written(Value(x))|
    ensures FromValue(DecimalValue(Written(Value(x)))) == x
    ensures Canonical(s) && DecimalValue(s) < WORD * WORD ==> Written(Value(FromValue(DecimalValue(s)))) == s
  {
    hide Value, FromValue;
    var w := Written(Value(x));
    WrittenReadsBack(Value(x));
    assert w[..|w|] == w;
    LeadingIs(w, |w|);
    FromValueOfValue(x);
    if Canonical(s) && DecimalValue(s) < WORD * WORD {
      CanonicalIsWritten(s);
      ValueOfFromValue(DecimalValue(s));
      ModuloIs(DecimalValue(s), WORD * WORD, 0, DecimalValue(s));
    }
  }
}
