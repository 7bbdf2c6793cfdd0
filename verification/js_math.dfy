/**
 * JavaScript arithmetic the application relies on. `%` in JavaScript
 * truncates toward zero, so the remainder takes the sign of the dividend,
 * unlike Dafny's Euclidean `%` whose remainder is never negative. Every use
 * in the application divides by 360 (degrees of rotation). A JavaScript
 * Number is a 64-bit double: `parseInt` rounds the integer it reads to the
 * nearest double, gives an infinity past the largest one, and `NaN` when it
 * reads nothing (section 6.1.6.1 of ECMA-262).
 */
module JsMath {

  /** `a % b` as JavaScript evaluates it on integers, for a positive divisor. */
  function JsRem(a: int, b: int): (r: int)
    requires b > 0
    ensures a >= 0 ==> r == a % b
    ensures a < 0 ==> r == -((-a) % b)
  {
    if a >= 0 then a % b else -((-a) % b)
  }

  /** A JavaScript remainder by 360 lies strictly between -360 and 360, and
      differs from the dividend by a multiple of 360. */
  lemma JsRem360Range(a: int)
    ensures -360 < JsRem(a, 360) < 360
    ensures (a - JsRem(a, 360)) % 360 == 0
    ensures a >= 0 ==> JsRem(a, 360) >= 0
  {
  }

  /** `a % 360`, then adding 360 to a negative result, gives the Euclidean
      remainder: the idiom the custom rotation input uses. */
  lemma JsRemPlus360IsEuclidean(a: int)
    ensures (var r := JsRem(a, 360); if r < 0 then r + 360 else r) == a % 360
  {
  }

  // ---------------------------------------------------------------------------
  // Numbers with an integer value

  /** A JavaScript Number with an integer value, as `parseInt` returns one:
      a finite double, an infinity, or `NaN`. Negative zero is not told
      apart from zero; no comparison or remainder used here can. */
  datatype Number = Finite(value: int) | PosInfinity | NegInfinity | NaN

  function Pow2(k: nat): (p: nat)
    ensures p >= 1
    decreases k
  {
    if k == 0 then 1 else 2 * Pow2(k - 1)
  }

  /** 2^53: every integer of smaller magnitude is a double. */
  const TwoTo53: int := 9007199254740992

  function Abs(x: int): nat {
    if x >= 0 then x else -x
  }

  function Dist(a: int, b: int): nat {
    if a >= b then a - b else b - a
  }

  lemma MulMono(a: int, b: int, c: int)
    requires 0 <= c && a <= b
    ensures a * c <= b * c
  {
    assert b * c == a * c + (b - a) * c;
  }

  /** Multiples of `d` at different quotients are at least `d` apart. */
  lemma MulGap(a: int, b: int, d: int)
    requires a < b && d >= 0
    ensures a * d + d <= b * d
  {
    MulMono(a + 1, b, d);
    assert (a + 1) * d == a * d + d;
  }

  /** The quotient and remainder are determined by the division identity. */
  lemma DivUnique(n: int, d: int, q: int, r: int)
    requires d > 0 && n == q * d + r && 0 <= r < d
    ensures n / d == q && n % d == r
  {
    var q' := n / d;
    if q > q' {
      MulGap(q', q, d);
    } else if q < q' {
      MulGap(q, q', d);
    }
  }

  lemma DivDouble(n: nat, u: nat)
    requires u >= 1
    ensures n / (2 * u) == (n / 2) / u
  {
    var b, c := (n / 2) / u, (n / 2) % u;
    assert n == b * (2 * u) + (2 * c + n % 2);
    DivUnique(n, 2 * u, b, 2 * c + n % 2);
  }

  /** The exponent of the spacing of the doubles around `n`: 0 below 2^53,
      one more at each doubling above. */
  function SpacingExp(n: nat): nat
    decreases n
  {
    if n < TwoTo53 then 0 else 1 + SpacingExp(n / 2)
  }

  /** The distance between consecutive doubles around `n`. */
  function Spacing(n: nat): (u: nat)
    ensures u >= 1
  {
    Pow2(SpacingExp(n))
  }

  /** A double's significand has 53 bits: `n` is less than 2^53 spacings,
      and at least 2^52 of them once it is past 2^53. */
  lemma {:induction false} SignificandFits(n: nat)
    ensures n / Spacing(n) < TwoTo53
    ensures n >= TwoTo53 ==> n / Spacing(n) >= TwoTo53 / 2
    decreases n
  {
    if n >= TwoTo53 {
      SignificandFits(n / 2);
      DivDouble(n, Spacing(n / 2));
    }
  }

  /** `n` rounded to a multiple of `u`: the nearer of the multiples just
      below and just above, and on a tie the one whose quotient is even. */
  function RoundToMultiple(n: nat, u: nat): (r: nat)
    requires u >= 1
    ensures r % u == 0 && (r / u == n / u || r / u == n / u + 1)
    ensures r == (n / u) * u || r == (n / u) * u + u
    ensures 2 * Dist(r, n) <= u
    ensures 2 * Dist(r, n) == u ==> (r / u) % 2 == 0
    ensures u == 1 ==> r == n
  {
    var q := n / u;
    var lo := q * u;
    MultiplesAround(n, u, q, lo);
    if 2 * (n - lo) > u || (2 * (n - lo) == u && q % 2 == 1) then lo + u else lo
  }

  /** The integer `n` rounded to a double: the nearer multiple of the
      spacing, and on a tie the one with an even significand. Overflow is
      left to `ToNumber`. */
  function RoundToDouble(n: nat): (r: nat)
    ensures r % Spacing(n) == 0 && r / Spacing(n) <= TwoTo53
    ensures 2 * Dist(r, n) <= Spacing(n)
    ensures 2 * Dist(r, n) == Spacing(n) ==> (r / Spacing(n)) % 2 == 0
    ensures n < TwoTo53 ==> r == n
  {
    SignificandFits(n);
    RoundToMultiple(n, Spacing(n))
  }

  /** `n` lies between the multiples `q * u` and `q * u + u` of `u`, whose
      quotients are `q` and `q + 1`. */
  lemma MultiplesAround(n: nat, u: nat, q: nat, lo: nat)
    requires u >= 1 && q == n / u && lo == q * u
    ensures lo <= n < lo + u && n - lo == n % u
    ensures lo % u == 0 && lo / u == q
    ensures (lo + u) % u == 0 && (lo + u) / u == q + 1
  {
    DivUnique(lo, u, q, 0);
    assert lo + u == (q + 1) * u;
    DivUnique(lo + u, u, q + 1, 0);
  }

  /** Just above 2^53 the spacing is 2: 2^53 + 1 is a tie between 2^53
      and 2^53 + 2, and goes to 2^53, whose significand is even. */
  lemma RoundJustAbove53()
    ensures Spacing(TwoTo53 + 1) == 2 && RoundToDouble(TwoTo53 + 1) == TwoTo53
  {
    var n := TwoTo53 + 1;
    assert SpacingExp(n) == 1 by {
      assert SpacingExp(n / 2) == 0;
    }
    assert Pow2(1) == 2;
    MultiplesAround(n, 2, n / 2, TwoTo53);
  }

  /** Between 2^53 and 2^54 the doubles are the even integers. */
  lemma SpacingAbove53(n: nat)
    requires TwoTo53 <= n < 2 * TwoTo53
    ensures SpacingExp(n) == 1 && Spacing(n) == 2
  {
    assert SpacingExp(n / 2) == 0;
    assert SpacingExp(n) == 1;
    assert Pow2(1) == 2;
  }

  /** So an odd integer there is no double, and rounds to one of its two
      neighbours. */
  lemma OddAbove53Rounds(n: nat)
    requires TwoTo53 < n < 2 * TwoTo53 && n % 2 == 1
    ensures RoundToDouble(n) == n - 1 || RoundToDouble(n) == n + 1
  {
    SpacingAbove53(n);
    var r := RoundToDouble(n);
    assert r % 2 == 0 && 2 * Dist(r, n) <= 2;
  }

  /** No multiple of the spacing is nearer to `n` than its rounding. */
  lemma RoundIsNearest(n: nat, m: nat)
    ensures Dist(RoundToDouble(n), n) <= Dist(m * Spacing(n), n)
  {
    var u := Spacing(n);
    var q := n / u;
    var lo := q * u;
    var mu := m * u;
    MultiplesAround(n, u, q, lo);
    var r := RoundToMultiple(n, u);
    assert r == RoundToDouble(n);
    if m <= q {
      MulMono(m, q, u);
      assert mu <= lo;
    } else {
      MulMono(q + 1, m, u);
      assert (q + 1) * u == lo + u;
      assert lo + u <= mu;
    }
  }

  /** Twenty nines, 10^20 - 1, lie 14 doublings above 2^53, so the
      doubles around them are 2^14 apart. */
  lemma SpacingOfTwentyNines()
    ensures SpacingExp(99999999999999999999) == 14 && Spacing(99999999999999999999) == 16384
  {
    assert SpacingExp(6103515624999999) == 0;
    assert SpacingExp(12207031249999999) == 1;
    assert SpacingExp(24414062499999999) == 2;
    assert SpacingExp(48828124999999999) == 3;
    assert SpacingExp(97656249999999999) == 4;
    assert SpacingExp(195312499999999999) == 5;
    assert SpacingExp(390624999999999999) == 6;
    assert SpacingExp(781249999999999999) == 7;
    assert SpacingExp(1562499999999999999) == 8;
    assert SpacingExp(3124999999999999999) == 9;
    assert SpacingExp(6249999999999999999) == 10;
    assert SpacingExp(12499999999999999999) == 11;
    assert SpacingExp(24999999999999999999) == 12;
    assert SpacingExp(49999999999999999999) == 13;
    assert SpacingExp(99999999999999999999) == 14;
    assert Pow2(14) == 16384;
  }

  /** And they round up to 10^20, a double. */
  lemma TwentyNinesRound()
    ensures RoundToDouble(99999999999999999999) == 100000000000000000000
  {
    SpacingOfTwentyNines();
    var n := 99999999999999999999;
    MultiplesAround(n, 16384, 6103515624999999, 99999999999999983616);
  }

  /** The exponent of the spacing of the largest doubles: the largest
      finite double is (2^53 - 1) * 2^971. */
  const MaxSpacingExp: nat := 971

  /** Rounding `n` overflows: with an unbounded exponent it would round to
      2^1024 or more, which no double holds. This happens from
      2^1024 - 2^970 up, halfway between the largest finite double and
      2^1024 (section 4.3.4 of ECMA-262 and section 7.4 of IEEE 754). */
  predicate Overflows(n: nat) {
    || SpacingExp(n) > MaxSpacingExp
    || (SpacingExp(n) == MaxSpacingExp && RoundToDouble(n) / Spacing(n) == TwoTo53)
  }

  /** Integers below 2^53 are far from overflowing. */
  lemma SmallDoesNotOverflow(n: nat)
    requires n < TwoTo53
    ensures !Overflows(n)
  {
  }

  /** An integer whose spacing is below the largest one never overflows:
      its rounding is at most 2^53 spacings. */
  lemma BelowTopBinadeDoesNotOverflow(n: nat)
    requires SpacingExp(n) < MaxSpacingExp
    ensures !Overflows(n)
  {
  }

  /** The Number value of an integer: rounded to the nearest double, or an
      infinity of its sign when the rounding overflows. */
  function ToNumber(x: int): (d: Number)
    ensures !d.NaN?
    ensures d.PosInfinity? <==> x >= 0 && Overflows(x)
    ensures d.NegInfinity? <==> x < 0 && Overflows(-x)
    ensures d.Finite? ==> 2 * Dist(d.value, x) <= Spacing(Abs(x))
    ensures -TwoTo53 < x < TwoTo53 ==> d == Finite(x)
  {
    if x >= 0 && Overflows(x) then PosInfinity
    else if x < 0 && Overflows(-x) then NegInfinity
    else if x >= 0 then Finite(RoundToDouble(x))
    else Finite(0 - RoundToDouble(-x))
  }

  /** Between 2^53 and 2^54 an integer's Number is its rounding. */
  lemma ToNumberAbove53(n: int)
    requires TwoTo53 <= n < 2 * TwoTo53
    ensures ToNumber(n) == Finite(RoundToDouble(n))
  {
    SpacingAbove53(n);
    BelowTopBinadeDoesNotOverflow(n);
  }

  /** `a % b` for a positive integer `b`: `NaN` from `NaN` or an infinity,
      otherwise the truncating remainder, which doubles compute exactly. */
  function NumberRem(a: Number, b: int): (r: Number)
    requires b > 0
    ensures r.NaN? <==> !a.Finite?
    ensures a.Finite? ==> r == Finite(JsRem(a.value, b))
  {
    if a.Finite? then Finite(JsRem(a.value, b)) else NaN
  }

  /** `a < 0`: false for `NaN`. */
  predicate IsNegative(a: Number) {
    (a.Finite? && a.value < 0) || a.NegInfinity?
  }

  /** Whether `a || …` keeps `a`: false exactly for zero and `NaN`. */
  predicate Truthy(a: Number) {
    (a.Finite? && a.value != 0) || a.PosInfinity? || a.NegInfinity?
  }

  /** `a + k` for an integer `k`: the sum rounded to a double; infinities
      and `NaN` stay. */
  function AddInt(a: Number, k: int): Number {
    if a.Finite? then ToNumber(a.value + k) else a
  }
}
