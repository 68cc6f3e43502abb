/** Grisu2 digit generation: the digits of a number between two bounds. */
module Grisu {
  import opened Basics
  import opened Radix


  function Pow2(n: nat): (r: nat)
    ensures r > 0
  {
    Power(2, n)
  }

  function Pow10(n: nat): (r: nat)
    ensures r > 0
  {
    Power(10, n)
  }

  function Distance(a: int, b: int): nat { if a < b then b - a else a - b }

  function Last(digits: seq<nat>): nat
    requires digits != []
  {
    digits[|digits| - 1]
  }

  function WithLast(digits: seq<nat>, d: nat): seq<nat>
    requires digits != []
  {
    digits[..|digits| - 1] + [d]
  }

  // ----- rounding -----

  /** What rounding does: lowers the last digit `j` times, which adds `j` units to the
      distance from the upper bound, and comes as close to `frac` as it can. */
  ghost predicate Rounded(digits0: seq<nat>, delta: int, rem0: int, unit: int, frac: int, digits: seq<nat>, j: nat)
    requires digits0 != []
  {
    && j <= Last(digits0) && digits == WithLast(digits0, Last(digits0) - j) && rem0 + j * unit <= delta
    && forall i: nat :: rem0 + i * unit <= delta ==> Distance(frac, rem0 + j * unit) <= Distance(frac, rem0 + i * unit)
  }

  /** round_digit. */
  method RoundDigit(digits0: seq<nat>, delta: uint64, rem0: uint64, unit: uint64, frac: uint64) returns (digits: seq<nat>)
    requires digits0 != [] && unit > 0 && rem0 <= delta && frac <= delta && delta <= rem0 + Last(digits0) * unit
    ensures digits != [] && Last(digits) <= Last(digits0)
    ensures Rounded(digits0, delta, rem0, unit, frac, digits, Last(digits0) - Last(digits))
    ensures Last(digits) == 0 && Last(digits0) > 0 <==> Last(digits0) > 0 && delta == rem0 + Last(digits0) * unit && 2 * (delta - frac) < unit
  {
    digits := digits0;
    var rem := rem0;
    ghost var j: nat := 0;
    assert WithLast(digits0, Last(digits0)) == digits0;
    while rem < frac && delta - rem >= unit && (rem + unit < frac || frac - rem > rem + unit - frac)
      invariant rem == rem0 + j * unit <= delta && j <= Last(digits0) && digits == WithLast(digits0, Last(digits0) - j)
      invariant forall i: nat :: i <= j ==> Distance(frac, rem) <= Distance(frac, rem0 + i * unit)
      invariant j > 0 ==> 2 * frac > 2 * rem - unit
      decreases delta - rem
    {
      OneMoreUnit(rem0, j, Last(digits0), unit, delta);
      CloserYet(rem0, j, unit, frac);
      digits := WithLast(digits, Last(digits) - 1);
      rem := rem + unit;
      j := j + 1;
    }
    RoundingEnds(rem0, j, unit, delta, frac);
    LowestDigit(rem0, j, Last(digits0), unit, delta, frac);
  }

  lemma Units(a: nat, b: nat, unit: nat)
    requires a <= b
    ensures a * unit <= b * unit
    ensures a < b ==> a * unit + unit <= b * unit
  {
    Less(b, a, unit);
    Natural(b - a, unit);
    if a < b {
      Natural(b - a - 1, unit);
      Less(b - a, 1, unit);
    }
  }

  /** Another unit fits, so the digit is not used up. */
  lemma OneMoreUnit(rem0: int, j: nat, last: nat, unit: nat, delta: int)
    requires unit > 0 && delta - (rem0 + j * unit) >= unit && delta <= rem0 + last * unit && j <= last
    ensures j < last && (j + 1) * unit == j * unit + unit
  {
  }

  lemma CloserYet(rem0: int, j: nat, unit: nat, frac: int)
    requires var rem := rem0 + j * unit; rem < frac && (rem + unit < frac || frac - rem > rem + unit - frac)
    requires forall i: nat :: i <= j ==> Distance(frac, rem0 + j * unit) <= Distance(frac, rem0 + i * unit)
    ensures forall i: nat :: i <= j + 1 ==> Distance(frac, rem0 + (j + 1) * unit) <= Distance(frac, rem0 + i * unit)
  {
    assert (j + 1) * unit == j * unit + unit;
  }

  /** Where rounding stops, no number of units comes closer. */
  lemma RoundingEnds(rem0: int, j: nat, unit: nat, delta: int, frac: int)
    requires unit > 0 && rem0 + j * unit <= delta && frac <= delta
    requires var rem := rem0 + j * unit; !(rem < frac && delta - rem >= unit && (rem + unit < frac || frac - rem > rem + unit - frac))
    requires forall i: nat :: i <= j ==> Distance(frac, rem0 + j * unit) <= Distance(frac, rem0 + i * unit)
    ensures forall i: nat :: rem0 + i * unit <= delta ==> Distance(frac, rem0 + j * unit) <= Distance(frac, rem0 + i * unit)
  {
    forall i: nat | rem0 + i * unit <= delta
      ensures Distance(frac, rem0 + j * unit) <= Distance(frac, rem0 + i * unit)
    {
      if i > j { Units(j, i, unit); }
    }
  }

  /** The last digit goes down to zero exactly when the lower bound is on a unit and the
      number is less than half a unit above it. */
  lemma LowestDigit(rem0: int, j: nat, last: nat, unit: nat, delta: int, frac: int)
    requires unit > 0 && rem0 + j * unit <= delta <= rem0 + last * unit && frac <= delta && j <= last
    requires var rem := rem0 + j * unit; !(rem < frac && delta - rem >= unit && (rem + unit < frac || frac - rem > rem + unit - frac))
    requires j > 0 ==> 2 * frac > 2 * (rem0 + j * unit) - unit
    ensures j == last && j > 0 <==> last > 0 && delta == rem0 + last * unit && 2 * (delta - frac) < unit
  {
    if j < last { Units(j, last, unit); }
  }

  // ----- what digits are worth -----

  /** With `scale` and `unit` the number the digits stand for lies between the bounds, and
      no other number of units between them is closer to `w`. */
  ghost predicate Good(lower: nat, w: nat, upper: nat, scale: nat, unit: nat, digits: seq<nat>) {
    var v := Value(digits, 10) * unit;
    && lower * scale <= v <= upper * scale
    && forall x: nat :: lower * scale <= x * unit <= upper * scale ==> Distance(w * scale, v) <= Distance(w * scale, x * unit)
  }

  ghost predicate WellFormed(digits: seq<nat>) {
    digits != [] && Digits(digits, 10) && digits[0] != 0
  }

  lemma ValueWithLast(digits: seq<nat>, j: nat)
    requires digits != [] && j <= Last(digits)
    ensures Value(WithLast(digits, Last(digits) - j), 10) == Value(digits, 10) - j
  {
    var front := digits[..|digits| - 1];
    ValueNext(front, Last(digits) - j, 10);
    assert digits == front + [Last(digits)];
    ValueNext(front, Last(digits), 10);
  }

  /** Rounding digits that reach the upper bound up to `rem0` makes them good. */
  lemma RoundedIsGood(lower: nat, w: nat, upper: nat, scale: nat, unit: nat, digits0: seq<nat>, rem0: nat, digits: seq<nat>, j: nat)
    requires digits0 != [] && unit > 0 && rem0 < unit && lower <= w <= upper
    requires upper * scale == Value(digits0, 10) * unit + rem0
    requires Rounded(digits0, (upper - lower) * scale, rem0, unit, (upper - w) * scale, digits, j)
    ensures Good(lower, w, upper, scale, unit, digits)
  {
    var v0 := Value(digits0, 10);
    ValueWithLast(digits0, j);
    Less(v0, j, unit);
    Less(upper, lower, scale);
    Less(upper, w, scale);
    forall x: nat | lower * scale <= x * unit <= upper * scale
      ensures Distance(w * scale, (v0 - j) * unit) <= Distance(w * scale, x * unit)
    {
      if x > v0 { Units(v0, x, unit); }
      Less(v0, v0 - x, unit);
    }
  }

  lemma Less(a: int, b: int, c: int)
    ensures (a - b) * c == a * c - b * c
  {
  }

  // ----- the integer part -----

  /** The integer digits so far, `left` of the integer part after them. */
  ghost predicate Integral(whole: nat, digits: seq<nat>, kappa: nat, left: nat) {
    && whole == Value(digits, 10) * Pow10(kappa) + left && left < Pow10(kappa)
    && Digits(digits, 10) && (digits != [] ==> digits[0] != 0)
  }

  /** One more digit, unless it would be a leading zero. */
  function Appended(digits: seq<nat>, digit: nat): seq<nat> {
    if digit != 0 || digits != [] then digits + [digit] else digits
  }

  lemma AppendedValue(digits: seq<nat>, digit: nat)
    ensures Value(Appended(digits, digit), 10) == Value(digits, 10) * 10 + digit
    ensures Appended(digits, digit) != [] ==> Last(Appended(digits, digit)) == digit
  {
    if digit != 0 || digits != [] { ValueNext(digits, digit, 10); }
  }

  lemma NextIntegral(whole: nat, digits: seq<nat>, kappa: nat, digit: nat, rest: nat)
    requires kappa > 0 && rest < Pow10(kappa - 1) && Integral(whole, digits, kappa, digit * Pow10(kappa - 1) + rest)
    ensures digit < 10 && Integral(whole, Appended(digits, digit), kappa - 1, rest)
  {
    var p := Pow10(kappa - 1);
    assert Pow10(kappa) == 10 * p;
    hide Pow10, Value;
    if digit >= 10 { Units(10, digit, p); }
    AppendedValue(digits, digit);
    Grouped(Value(digits, 10), p, digit);
  }

  lemma DivisionOf(x: nat, p: nat)
    requires p > 0
    ensures x / p >= 0 && 0 <= x - x / p * p < p && x % p == x - x / p * p
  {
  }

  lemma Grouped(v: int, p: int, d: int)
    ensures (v * 10 + d) * p == v * (10 * p) + d * p
  {
  }

  /** No multiple of `unit` lies between the bounds. */
  ghost predicate NoneBetween(lower: nat, upper: nat, unit: nat) {
    forall x: nat :: !(lower <= x * unit <= upper)
  }

  /** The first loop: takes digits off the integer part until the rest is within the
      bounds' distance. */
  method IntegerDigits(w: uint64, upper: uint64, lower: uint64, one: nat)
      returns (done: bool, digits: seq<nat>, kappa: nat, part2: uint64)
    requires 0 < lower <= w <= upper && lower < upper && 0x1_0000_0000 <= one <= 0x1000_0000_0000_0000
    ensures done ==>
              && WellFormed(digits) && kappa < 10 && Last(digits) > 0
              && Good(lower, w, upper, 1, Pow10(kappa) * one, digits)
              && NoneBetween(lower, upper, Pow10(kappa + 1) * one)
    ensures !done ==>
              && Digits(digits, 10) && (digits != [] ==> digits[0] != 0)
              && upper == Value(digits, 10) * one + part2 && upper - lower < part2 < one
  {
    hide Pow10, Value, Stage, Good, NoneBetween, WellFormed, Stepped;
    var delta: uint64 := upper - lower;
    var part1: uint64;
    part1, part2 := Split(upper, one);
    digits, kappa, done := [], 10, false;
    ghost var rest := upper;
    while kappa > 0
      invariant kappa <= 10 && Stage(upper, one, part2, digits, kappa, part1, rest) && delta < rest
    {
      ghost var digits0, left0, rest0, digit := digits, part1, rest, 0;
      var tmp: uint64;
      digits, part1, tmp, digit := TakeDigit(upper, one, part2, digits, kappa, part1, rest);
      kappa := kappa - 1;
      rest := tmp;
      if tmp <= delta {
        digits := StopInteger(w, upper, lower, one, part2, digits0, left0, rest0, digits, kappa, part1, tmp, digit);
        return true, digits, kappa, part2;
      }
    }
    StageEnds(upper, one, part2, digits, part1, rest);
  }

  /** Where the first loop is: `rest` is what the digits so far leave of the upper bound. */
  ghost predicate Stage(upper: nat, one: nat, part2: nat, digits: seq<nat>, kappa: nat, left: nat, rest: nat)
  {
    && one > 0 && part2 == upper % one && part2 < one
    && Integral(upper / one, digits, kappa, left) && rest == left * one + part2 && rest <= upper && upper == upper / one * one + part2
  }

  /** The digit of weight `unit` taken off between two stages. */
  ghost predicate Stepped(digits0: seq<nat>, rest0: nat, digits: seq<nat>, rest: nat, digit: nat, unit: int) {
    && Value(digits, 10) == Value(digits0, 10) * 10 + digit && (digits != [] ==> Last(digits) == digit)
    && rest0 == digit * unit + rest && rest < unit && unit > 0
  }

  method Split(upper: uint64, one: nat) returns (part1: uint64, part2: uint64)
    requires 0x1_0000_0000 <= one
    ensures Stage(upper, one, part2, [], 10, part1, upper)
  {
    DivisionOf(upper, one);
    IntegralStart(upper / one, upper, one, upper % one);
    Units(1, one, upper / one);
    part1, part2 := upper / one, upper % one;
  }

  method TakeDigit(upper: uint64, one: nat, part2: uint64, digits0: seq<nat>, kappa: nat, left0: uint64, ghost rest0: nat)
      returns (digits: seq<nat>, left: uint64, tmp: uint64, ghost digit0: nat)
    requires 0 < kappa <= 10 && Stage(upper, one, part2, digits0, kappa, left0, rest0)
    ensures Stage(upper, one, part2, digits, kappa - 1, left, tmp)
    ensures Stepped(digits0, rest0, digits, tmp, digit0, Pow10(kappa - 1) * one)
  {
    hide Pow10, Value, Integral, Stage, Stepped, Appended;
    var div: uint64 := TenTo(kappa - 1);
    TakenDigit(upper, one, part2, digits0, kappa, left0, rest0);
    var digit: nat := left0 / div;
    digit0 := digit;
    digits := Appended(digits0, digit);
    left := left0 - digit * div;
    tmp := left * one + part2;
  }

  lemma TakenDigit(upper: uint64, one: nat, part2: nat, digits0: seq<nat>, kappa: nat, left0: uint64, rest0: nat)
    requires kappa > 0 && Stage(upper, one, part2, digits0, kappa, left0, rest0)
    ensures var p := Pow10(kappa - 1);
            var digit, left, digits := left0 / p, left0 - left0 / p * p, Appended(digits0, left0 / p);
            && 0 <= digit * p && 0 <= left <= left0 && 0 <= left * one && left * one + part2 <= upper
            && Stage(upper, one, part2, digits, kappa - 1, left, left * one + part2)
            && Stepped(digits0, rest0, digits, left * one + part2, digit, p * one)
  {
    hide Pow10, Value, Integral, Appended;
    var p := Pow10(kappa - 1);
    var digit := left0 / p;
    var left := left0 - digit * p;
    DivisionOf(left0, p);
    NextIntegral(upper / one, digits0, kappa, digit, left);
    AppendedValue(digits0, digit);
    RestFits(upper / one, Appended(digits0, digit), kappa - 1, left, one, part2, upper);
    StepSum(digit, p, left, one);
  }

  lemma StepSum(digit: nat, p: nat, left: nat, one: nat)
    requires left < p && one > 0
    ensures (digit * p + left) * one == digit * (p * one) + left * one && left * one + one <= p * one && digit * p >= 0
  {
    Units(left, p, one);
    Sum2(digit * p, left, one);
    Product3(digit, p, one);
  }

  /** Where the first loop stops: the last digit is rounded. */
  method StopInteger(w: uint64, upper: uint64, lower: uint64, one: nat, part2: uint64, ghost digits0: seq<nat>, ghost left0: nat, ghost rest0: nat,
                     digits1: seq<nat>, kappa: nat, left: uint64, tmp: uint64, ghost digit: nat) returns (digits: seq<nat>)
    requires 0 < lower <= w <= upper && lower < upper && kappa < 10
    requires Stage(upper, one, part2, digits1, kappa, left, tmp) && Stage(upper, one, part2, digits0, kappa + 1, left0, rest0)
    requires Stepped(digits0, rest0, digits1, tmp, digit, Pow10(kappa) * one) && tmp <= upper - lower < rest0
    ensures WellFormed(digits) && Last(digits) > 0
    ensures Good(lower, w, upper, 1, Pow10(kappa) * one, digits)
    ensures NoneBetween(lower, upper, Pow10(kappa + 1) * one)
  {
    hide Pow10, Value, Good, NoneBetween, WellFormed, Stepped, Stage;
    StopFacts(lower, upper, one, part2, digits0, rest0, digits1, kappa, left, tmp, digit);
    StopGap(lower, upper, one, part2, digits0, kappa, left0, rest0);
    var unit: uint64 := TenTo(kappa) * one;
    digits := RoundInteger(w, upper, lower, digits1, tmp, unit);
  }

  lemma StopFacts(lower: nat, upper: uint64, one: nat, part2: nat, digits0: seq<nat>, rest0: nat, digits: seq<nat>, kappa: nat, left: nat, rest: nat, digit: nat)
    requires 0 < lower < upper && kappa < 10 && Stage(upper, one, part2, digits, kappa, left, rest)
    requires Stepped(digits0, rest0, digits, rest, digit, Pow10(kappa) * one) && rest <= upper - lower < rest0
    ensures digits != [] && Digits(digits, 10) && digits[0] != 0
    ensures var unit := Pow10(kappa) * one;
            && 0 < unit < UINT64 && rest < unit && upper - lower < rest + Last(digits) * unit
            && upper == Value(digits, 10) * unit + rest
  {
    hide Pow10, Value;
    var p, v, unit := Pow10(kappa), Value(digits, 10), Pow10(kappa) * one;
    NoDigits(10);
    Product3(v, p, one);
    Sum2(v * p, left, one);
    assert upper == v * unit + rest;
    assert v > 0;
    Units(1, v, unit);
  }

  lemma StopGap(lower: nat, upper: nat, one: nat, part2: nat, digits: seq<nat>, kappa: nat, left: nat, rest: nat)
    requires Stage(upper, one, part2, digits, kappa + 1, left, rest) && lower < upper && upper - lower < rest
    ensures NoneBetween(lower, upper, Pow10(kappa + 1) * one)
  {
    hide Pow10, Value;
    var p, v := Pow10(kappa + 1), Value(digits, 10);
    Product3(v, p, one);
    Sum2(v * p, left, one);
    Gap(lower, upper, p * one, v, rest, left, p, one, part2);
  }

  lemma StageEnds(upper: nat, one: nat, part2: nat, digits: seq<nat>, left: nat, rest: nat)
    requires Stage(upper, one, part2, digits, 0, left, rest)
    ensures Digits(digits, 10) && (digits != [] ==> digits[0] != 0)
    ensures upper == Value(digits, 10) * one + part2 && rest == part2 < one
  {
    assert Pow10(0) == 1;
    hide Value;
    assert left == 0 && upper / one == Value(digits, 10);
  }

  /** The last integer digit is rounded; it never gets to zero. */
  method RoundInteger(w: uint64, upper: uint64, lower: uint64, digits0: seq<nat>, tmp: uint64, unit: uint64) returns (digits: seq<nat>)
    requires lower <= w <= upper && digits0 != [] && Digits(digits0, 10) && digits0[0] != 0
    requires 0 < unit && tmp < unit && tmp <= upper - lower < tmp + Last(digits0) * unit
    requires upper == Value(digits0, 10) * unit + tmp
    ensures WellFormed(digits) && Last(digits) > 0 && Good(lower, w, upper, 1, unit, digits)
  {
    hide Value, Good, Rounded;
    digits := RoundDigit(digits0, upper - lower, tmp, unit, upper - w);
    ghost var j: nat := Last(digits0) - Last(digits);
    RoundedOnce(lower, w, upper, unit, digits0, tmp, digits, j);
    RoundedIs(digits0, upper - lower, tmp, unit, upper - w, digits, j);
    LastStays(digits0, digits, j);
  }

  lemma RoundedIs(digits0: seq<nat>, delta: int, rem0: int, unit: int, frac: int, digits: seq<nat>, j: nat)
    requires digits0 != [] && Rounded(digits0, delta, rem0, unit, frac, digits, j)
    ensures j <= Last(digits0) && digits == WithLast(digits0, Last(digits0) - j)
  {
  }

  lemma RoundedOnce(lower: nat, w: nat, upper: nat, unit: nat, digits0: seq<nat>, rem0: nat, digits: seq<nat>, j: nat)
    requires digits0 != [] && unit > 0 && rem0 < unit && lower <= w <= upper
    requires upper == Value(digits0, 10) * unit + rem0
    requires Rounded(digits0, upper - lower, rem0, unit, upper - w, digits, j)
    ensures Good(lower, w, upper, 1, unit, digits)
  {
    hide Value, Good, Rounded;
    RoundedIsGood(lower, w, upper, 1, unit, digits0, rem0, digits, j);
  }

  /** The table of powers of ten. */
  function TenTo(k: nat): uint64
    requires k <= 19
  {
    TensFit(k);
    Pow10(k)
  }

  lemma {:induction false} TensFit(k: nat)
    requires k <= 19
    ensures Pow10(k) <= 10_000_000_000_000_000_000
    decreases 19 - k
  {
    if k == 19 {
      TenBits();
    } else {
      TensFit(k + 1);
    }
  }

  lemma TenBits()
    ensures Pow10(10) == 10_000_000_000 && Pow10(19) == 10_000_000_000_000_000_000
  {
    assert Pow10(5) == 100_000;
    assert Pow10(10) == 100_000 * Pow10(5);
    assert Pow10(15) == 100_000 * Pow10(10);
    assert Pow10(19) == 10_000 * Pow10(15);
  }

  lemma IntegralStart(whole: nat, upper: uint64, one: nat, part2: nat)
    requires one >= 0x1_0000_0000 && whole == upper / one && part2 == upper % one
    ensures Integral(whole, [], 10, whole) && whole * one + part2 == upper && part2 < one
  {
    TenBits();
    DivisionOf(upper, one);
    NoDigits(10);
    hide Pow10, Value;
    if whole >= 0x1_0000_0000 { Units(0x1_0000_0000, whole, one); }
  }

  lemma RestFits(whole: nat, digits: seq<nat>, kappa: nat, left: nat, one: nat, part2: nat, upper: nat)
    requires Integral(whole, digits, kappa, left) && upper == whole * one + part2
    ensures left * one + part2 <= upper && left * one >= 0
  {
    hide Pow10, Value;
    NotNegative(Value(digits, 10), Pow10(kappa));
    Units(left, whole, one);
  }

  lemma Product3(a: int, b: int, c: int)
    ensures a * b * c == a * (b * c)
  {
  }

  lemma Sum2(a: int, b: int, c: int)
    ensures (a + b) * c == a * c + b * c
  {
  }

  lemma Gap(lower: nat, upper: nat, unit: nat, v: nat, rest: nat, before: nat, p: nat, one: nat, part2: nat)
    requires upper == v * unit + rest && upper - lower < rest && unit == p * one && before < p && part2 < one && rest == before * one + part2
    ensures NoneBetween(lower, upper, unit)
  {
    Units(before, p, one);
    assert rest < unit;
    forall x: nat ensures !(lower <= x * unit <= upper) {
      if x <= v { Units(x, v, unit); } else { Units(v, x, unit); }
    }
  }

  lemma LastStays(digits0: seq<nat>, digits: seq<nat>, j: nat)
    requires digits0 != [] && j < Last(digits0) && digits == WithLast(digits0, Last(digits0) - j) && Digits(digits0, 10) && digits0[0] != 0
    ensures WellFormed(digits) && Last(digits) > 0
  {
  }

  // ----- the fraction -----

  /** The digits of the upper bound to `m` places, `part2` left after them. */
  ghost predicate Fraction(upper: nat, one: nat, m: nat, digits: seq<nat>, part2: nat) {
    && one > 0 && upper * Pow10(m) == Value(digits, 10) * one + part2 && part2 < one
    && Digits(digits, 10) && (digits != [] ==> digits[0] != 0)
  }

  lemma NextFraction(upper: nat, one: nat, m: nat, digits: seq<nat>, part2: nat)
    requires Fraction(upper, one, m, digits, part2)
    ensures var digit, rest := part2 * 10 / one, part2 * 10 % one;
            && 0 <= digit < 10 && part2 * 10 == digit * one + rest
            && Fraction(upper, one, m + 1, Appended(digits, digit), rest)
  {
    var digit, rest := part2 * 10 / one, part2 * 10 % one;
    var v := Value(digits, 10);
    assert Pow10(m + 1) == 10 * Pow10(m);
    hide Pow10, Value;
    DivisionOf(part2 * 10, one);
    if digit >= 10 { Units(10, digit, one); }
    AppendedValue(digits, digit);
    Shifted(upper, Pow10(m), v, one, part2, digit, rest);
  }

  lemma Shifted(upper: int, p: int, v: int, one: int, part2: int, digit: int, rest: int)
    requires upper * p == v * one + part2 && part2 * 10 == digit * one + rest
    ensures upper * (10 * p) == (v * 10 + digit) * one + rest
  {
    assert upper * (10 * p) == 10 * (upper * p);
    Sum2(v * 10, digit, one);
  }

  /** Some number of units is above the lower bound and not above the upper one. */
  ghost predicate Hit(lower: nat, upper: nat, scale: nat, unit: nat) {
    exists x: nat :: lower * scale < x * unit <= upper * scale
  }

  /** To `m` places the lower bound is exact and less than a unit below the upper bound, and
      to one more place the number is nearer to it than half a unit. */
  ghost predicate EndsInZero(lower: nat, w: nat, upper: nat, one: nat, m: nat)
    requires one > 0
  {
    && (lower * Pow10(m)) % one == 0 && (upper - lower) * Pow10(m) < one <= (upper - lower) * Pow10(m + 1)
    && 2 * ((w - lower) * Pow10(m + 1)) < one
  }

  /** The second loop: takes digits off the fraction until the rest is within the bounds'
      distance. Every product fits in 64 bits. */
  method FractionDigits(w: uint64, upper: uint64, lower: uint64, one: nat, digits0: seq<nat>, part20: uint64)
      returns (digits: seq<nat>, kappa: int, ghost m: nat)
    requires 0 < lower <= w <= upper && lower < upper && 0x1_0000_0000 <= one <= 0x1000_0000_0000_0000
    requires Digits(digits0, 10) && (digits0 != [] ==> digits0[0] != 0)
    requires upper == Value(digits0, 10) * one + part20 && upper - lower < part20 < one
    ensures kappa + m == -1 && WellFormed(digits) && Good(lower, w, upper, Pow10(m + 1), one, digits)
    ensures !Hit(lower, upper, Pow10(m), one) && Hit(lower, upper, Pow10(m + 1), one)
    ensures lower % one != 0
    ensures Last(digits) == 0 <==> EndsInZero(lower, w, upper, one, m)
  {
    assert Pow10(0) == 1;
    hide Pow10, Value, Good, Hit, WellFormed, Fraction, EndsInZero, Rounded;
    FractionStart(upper, one, digits0, part20);
    NotWhole(lower, upper, one, digits0, part20);
    digits, kappa, m := digits0, 0, 0;
    var part2: uint64, delta: uint64, unit: nat := part20, upper - lower, 1;
    while true
      invariant m <= 18 && kappa + m == 0 && unit == m + 1 && Fraction(upper, one, m, digits, part2)
      invariant delta == (upper - lower) * Pow10(m) <= part2 < one
      decreases 18 - m
    {
      ghost var before, left := digits, part2;
      var digit: nat;
      digits, part2, digit := NextPlace(upper, one, m, digits, part2);
      NextDelta(upper - lower, upper - w, m);
      delta := delta * 10;
      kappa := kappa - 1;
      if part2 < delta {
        StopsReady(lower, w, upper, one, m, before, left, digit, part2);
        ghost var ready := digits;
        digits := RoundDigit(digits, delta, part2, one, (upper - w) * TenTo(unit));
        ghost var j: nat := Last(ready) - Last(digits);
        FractionRounds(lower, w, upper, one, m, before, left, digit, part2, digits, j);
        FractionEnds(lower, w, upper, one, m, before, left, digit, part2, digits, j);
        return;
      }
      unit := unit + 1;
      m := m + 1;
      FewPlaces(upper - lower, m, one);
    }
  }

  method NextPlace(upper: uint64, one: nat, ghost m: nat, digits0: seq<nat>, part20: uint64) returns (digits: seq<nat>, part2: uint64, digit: nat)
    requires one <= 0x1000_0000_0000_0000 && Fraction(upper, one, m, digits0, part20) && part20 < one
    ensures Fraction(upper, one, m + 1, digits, part2) && part2 < one
    ensures digits == Appended(digits0, digit) && part20 * 10 == digit * one + part2
  {
    hide Pow10, Value;
    NextFraction(upper, one, m, digits0, part20);
    part2 := part20 * 10;
    digit := part2 / one;
    digits := Appended(digits0, digit);
    part2 := part2 % one;
  }

  lemma FractionStart(upper: nat, one: nat, digits: seq<nat>, part2: nat)
    requires one > 0 && Digits(digits, 10) && (digits != [] ==> digits[0] != 0) && upper == Value(digits, 10) * one + part2 && part2 < one
    ensures Fraction(upper, one, 0, digits, part2)
  {
    assert Pow10(0) == 1;
  }

  lemma NotWhole(lower: nat, upper: nat, one: nat, digits: seq<nat>, part2: nat)
    requires upper == Value(digits, 10) * one + part2 && 0 <= upper - lower < part2 < one
    ensures lower % one != 0
  {
    hide Value;
    Quotient(lower, one, Value(digits, 10), part2 - (upper - lower));
  }

  lemma NextDelta(delta: nat, frac: nat, m: nat)
    requires frac <= delta
    ensures delta * Pow10(m + 1) == delta * Pow10(m) * 10 && 0 <= frac * Pow10(m + 1) <= delta * Pow10(m + 1)
  {
    assert Pow10(m + 1) == 10 * Pow10(m);
    hide Pow10;
    Tens(delta, Pow10(m));
    Units(frac, delta, Pow10(m + 1));
  }

  lemma Tens(a: int, p: int)
    ensures a * (10 * p) == a * p * 10
  {
  }

  lemma {:induction false} MoreTens(a: nat, b: nat)
    requires a <= b
    ensures Pow10(a) <= Pow10(b)
    decreases b - a
  {
    if a < b { MoreTens(a + 1, b); }
  }

  /** Places run out before the powers of ten do. */
  lemma FewPlaces(delta: nat, m: nat, one: nat)
    requires delta > 0 && delta * Pow10(m) < one <= 0x1000_0000_0000_0000
    ensures m <= 18
  {
    if m >= 19 { MoreTens(19, m); }
    TenBits();
    hide Pow10;
    Units(1, delta, Pow10(m));
  }

  /** What stopping takes: a digit to round that is not zero. */
  lemma StopsReady(lower: nat, w: nat, upper: nat, one: nat, m: nat, before: seq<nat>, left: nat, digit: nat, part2: nat)
    requires 0 < lower <= w <= upper && Fraction(upper, one, m, before, left)
    requires Fraction(upper, one, m + 1, Appended(before, digit), part2) && left * 10 == digit * one + part2
    requires (upper - lower) * Pow10(m) <= left && part2 < (upper - lower) * Pow10(m + 1)
    ensures var digits := Appended(before, digit);
            && digits != [] && digits[0] != 0 && Last(digits) == digit && digit > 0
            && (upper - lower) * Pow10(m + 1) <= part2 + digit * one
  {
    var digits := Appended(before, digit);
    NoDigits(10);
    hide Pow10, Value;
    NextDelta(upper - lower, upper - lower, m);
    AppendedValue(before, digit);
    Less(upper, lower, Pow10(m + 1));
    Units(1, lower, Pow10(m + 1));
  }

  lemma FractionRounds(lower: nat, w: nat, upper: nat, one: nat, m: nat, before: seq<nat>, left: nat, digit: nat, part2: nat, digits: seq<nat>, j: nat)
    requires 0 < lower <= w <= upper && Appended(before, digit) != [] && Appended(before, digit)[0] != 0
    requires Fraction(upper, one, m + 1, Appended(before, digit), part2)
    requires Rounded(Appended(before, digit), (upper - lower) * Pow10(m + 1), part2, one, (upper - w) * Pow10(m + 1), digits, j)
    ensures WellFormed(digits) && Good(lower, w, upper, Pow10(m + 1), one, digits)
  {
    NoDigits(10);
    hide Pow10, Value, Rounded, Good, WellFormed;
    ScaledRounds(lower, w, upper, Pow10(m + 1), one, Appended(before, digit), part2, digits, j);
  }

  lemma ScaledRounds(lower: nat, w: nat, upper: nat, scale: nat, one: nat, ready: seq<nat>, part2: nat, digits: seq<nat>, j: nat)
    requires 0 < lower <= w <= upper && scale > 0 && ready != [] && ready[0] != 0 && Digits(ready, 10)
    requires part2 < one && upper * scale == Value(ready, 10) * one + part2
    requires Rounded(ready, (upper - lower) * scale, part2, one, (upper - w) * scale, digits, j)
    ensures WellFormed(digits) && Good(lower, w, upper, scale, one, digits)
  {
    hide Value, Rounded, Good;
    RoundedIsGood(lower, w, upper, scale, one, ready, part2, digits, j);
    RoundedIs(ready, (upper - lower) * scale, part2, one, (upper - w) * scale, digits, j);
    if |digits| == 1 { NotZero(lower, w, upper, scale, one, digits); }
  }

  lemma NotZero(lower: nat, w: nat, upper: nat, scale: nat, one: nat, digits: seq<nat>)
    requires 0 < lower && scale > 0 && Good(lower, w, upper, scale, one, digits) && |digits| == 1
    ensures digits[0] != 0
  {
    OneZero(digits);
    hide Value;
    Units(1, lower, scale);
  }

  lemma OneZero(digits: seq<nat>)
    requires |digits| == 1
    ensures Value(digits, 10) == digits[0]
  {
    assert digits[..0] == [];
  }

  lemma FractionEnds(lower: nat, w: nat, upper: nat, one: nat, m: nat, before: seq<nat>, left: nat, digit: nat, part2: nat, digits: seq<nat>, j: nat)
    requires 0 < lower <= w <= upper && Fraction(upper, one, m, before, left)
    requires Fraction(upper, one, m + 1, Appended(before, digit), part2) && left * 10 == digit * one + part2
    requires (upper - lower) * Pow10(m) <= left && part2 < (upper - lower) * Pow10(m + 1)
    requires Appended(before, digit) != [] && Last(Appended(before, digit)) == digit && digit > 0
    requires Rounded(Appended(before, digit), (upper - lower) * Pow10(m + 1), part2, one, (upper - w) * Pow10(m + 1), digits, j)
    requires j == digit <==> (upper - lower) * Pow10(m + 1) == part2 + digit * one && 2 * ((upper - lower) * Pow10(m + 1) - (upper - w) * Pow10(m + 1)) < one
    ensures !Hit(lower, upper, Pow10(m), one) && Hit(lower, upper, Pow10(m + 1), one)
    ensures Last(digits) == 0 <==> EndsInZero(lower, w, upper, one, m)
  {
    hide Pow10, Value, Rounded;
    var ready, p, s, v, v1 := Appended(before, digit), Pow10(m), Pow10(m + 1), Value(before, 10), Value(Appended(before, digit), 10);
    RoundedIs(ready, (upper - lower) * s, part2, one, (upper - w) * s, digits, j);
    NextDelta(upper - lower, upper - lower, m);
    Less(upper, lower, p);
    Less(upper, lower, s);
    Less(upper, w, s);
    Less(w, lower, s);
    assert lower * s < v1 * one <= upper * s;
    Missed(lower * p, upper * p, v, one);
    Quotient(lower * p, one, v, left - (upper - lower) * p);
    Units(1, digit, one);
  }

  lemma Missed(low: nat, high: nat, v: nat, one: nat)
    requires v * one <= low && high < v * one + one
    ensures forall x: nat :: !(low < x * one <= high)
  {
    forall x: nat ensures !(low < x * one <= high) {
      if x <= v { Units(x, v, one); } else { Units(v, x, one); }
    }
  }

  // ----- the whole -----

  /** The last digit comes out zero exactly when this holds. */
  ghost predicate LastIsZero(lower: nat, w: nat, upper: nat, one: nat)
    requires one > 0
  {
    lower % one != 0 && exists m: nat :: EndsInZero(lower, w, upper, one, m)
  }

  /** The digits are worth `10^kappa` units each, as close to the number as any so many
      places allow, and with a place less no number lies between the bounds. */
  ghost predicate Generated(lower: nat, w: nat, upper: nat, one: nat, digits: seq<nat>, kappa: int) {
    && WellFormed(digits)
    && (kappa >= 0 ==> Good(lower, w, upper, 1, Pow10(kappa) * one, digits) && NoneBetween(lower, upper, Pow10(kappa + 1) * one))
    && (kappa < 0 ==> Good(lower, w, upper, Pow10(-kappa), one, digits) && !Hit(lower, upper, Pow10(-kappa - 1), one))
  }

  /** generate_digits. */
  method GenerateDigits(w: uint64, upper: uint64, lower: uint64, exponent: int, k0: int) returns (digits: seq<nat>, k: int)
    requires 0 < lower <= w <= upper && lower < upper && -60 <= exponent <= -32
    ensures Generated(lower, w, upper, Pow2(-exponent), digits, k - k0)
    ensures Last(digits) == 0 <==> LastIsZero(lower, w, upper, Pow2(-exponent))
  {
    hide Pow2, Pow10, Value, Good, Hit, WellFormed, EndsInZero, NoneBetween, LastIsZero;
    var one: uint64 := OneShifted(-exponent);
    var done, integer, kappa, part2 := IntegerDigits(w, upper, lower, one);
    if done {
      WholeIsNotZero(lower, w, upper, one, integer, kappa);
      return integer, k0 + kappa;
    }
    ghost var m;
    digits, k, m := FractionDigits(w, upper, lower, one, integer, part2);
    ZeroOnce(lower, w, upper, one, m);
    k := k0 + k;
  }

  function OneShifted(n: nat): (r: uint64)
    requires 32 <= n <= 60
    ensures r == Pow2(n) && 0x1_0000_0000 <= r <= 0x1000_0000_0000_0000
  {
    ShiftRange(n);
    Pow2(n)
  }

  lemma {:induction false} ShiftRange(n: nat)
    requires 32 <= n <= 60
    ensures Pow2(32) <= Pow2(n) <= Pow2(60)
    ensures Pow2(32) == 0x1_0000_0000 && Pow2(60) == 0x1000_0000_0000_0000
  {
    Doubled(32);
    MorePow2(32, n);
    MorePow2(n, 60);
  }

  lemma Doubled(n: nat)
    requires n == 32
    ensures Pow2(32) == 0x1_0000_0000 && Pow2(60) == 0x1000_0000_0000_0000
  {
    assert Pow2(12) == 4096;
    assert Pow2(20) == 256 * Pow2(12);
    assert Pow2(32) == 4096 * Pow2(20);
    assert Pow2(44) == 4096 * Pow2(32);
    assert Pow2(52) == 256 * Pow2(44);
    assert Pow2(60) == 256 * Pow2(52);
  }

  lemma {:induction false} MorePow2(a: nat, b: nat)
    requires a <= b
    ensures Pow2(a) <= Pow2(b)
    decreases b - a
  {
    if a < b { MorePow2(a + 1, b); }
  }

  lemma HitNext(lower: nat, upper: nat, m: nat, one: nat)
    requires Hit(lower, upper, Pow10(m), one)
    ensures Hit(lower, upper, Pow10(m + 1), one)
  {
    assert Pow10(m + 1) == 10 * Pow10(m);
    hide Pow10;
    var p := Pow10(m);
    var x: nat :| lower * p < x * one <= upper * p;
    Tens(lower, p);
    Tens(upper, p);
    assert 10 * x * one == x * one * 10;
  }

  lemma {:induction false} HitLater(lower: nat, upper: nat, a: nat, b: nat, one: nat)
    requires a <= b && Hit(lower, upper, Pow10(a), one)
    ensures Hit(lower, upper, Pow10(b), one)
    decreases b - a
  {
    hide Hit;
    if a < b {
      HitNext(lower, upper, a, one);
      HitLater(lower, upper, a + 1, b, one);
    }
  }

  /** The places of a zero at the end are the first with a number between the bounds. */
  lemma ZeroHits(lower: nat, w: nat, upper: nat, one: nat, m: nat)
    requires one > 0 && 0 < lower <= w <= upper && EndsInZero(lower, w, upper, one, m)
    ensures !Hit(lower, upper, Pow10(m), one) && Hit(lower, upper, Pow10(m + 1), one)
  {
    assert Pow10(m + 1) == 10 * Pow10(m);
    hide Pow10;
    var p, s := Pow10(m), Pow10(m + 1);
    var x := lower * p / one;
    DivisionOf(lower * p, one);
    Less(upper, lower, p);
    Less(upper, lower, s);
    Tens(lower, p);
    Tens(upper, p);
    Missed(lower * p, upper * p, x, one);
    JustAbove(lower * p, lower * s, upper * s, x, one);
  }

  lemma JustAbove(low: nat, lowNext: nat, highNext: nat, x: nat, one: nat)
    requires 0 < one && low == x * one && lowNext == low * 10 && highNext - lowNext >= one
    ensures lowNext < (10 * x + 1) * one <= highNext
  {
    Sum2(10 * x, 1, one);
    Product3(10, x, one);
  }

  lemma ZeroOnce(lower: nat, w: nat, upper: nat, one: nat, m: nat)
    requires one > 0 && 0 < lower <= w <= upper && lower % one != 0
    requires !Hit(lower, upper, Pow10(m), one) && Hit(lower, upper, Pow10(m + 1), one)
    ensures EndsInZero(lower, w, upper, one, m) <==> LastIsZero(lower, w, upper, one)
  {
    hide Pow10, Hit, EndsInZero;
    if LastIsZero(lower, w, upper, one) {
      var n: nat :| EndsInZero(lower, w, upper, one, n);
      ZeroHits(lower, w, upper, one, n);
      if n < m {
        HitLater(lower, upper, n + 1, m, one);
      } else if m < n {
        HitLater(lower, upper, m + 1, n, one);
      }
      assert n == m;
    }
  }

  /** Digits of an integer never end in zero. */
  lemma WholeIsNotZero(lower: nat, w: nat, upper: nat, one: nat, digits: seq<nat>, kappa: nat)
    requires one > 0 && 0 < lower <= w <= upper && Good(lower, w, upper, 1, Pow10(kappa) * one, digits)
    ensures !LastIsZero(lower, w, upper, one)
  {
    assert Pow10(0) == 1;
    hide Pow10, Hit, EndsInZero, Value;
    if LastIsZero(lower, w, upper, one) {
      var n: nat :| EndsInZero(lower, w, upper, one, n);
      ZeroHits(lower, w, upper, one, n);
      WholeHit(lower, upper, Value(digits, 10), Pow10(kappa), one);
      HitLater(lower, upper, 0, n, one);
      assert false;
    }
  }

  lemma WholeHit(lower: nat, upper: nat, v: nat, p: nat, one: nat)
    requires one > 0 && lower <= v * (p * one) <= upper && lower % one != 0
    ensures Hit(lower, upper, 1, one)
  {
    Product3(v, p, one);
    if v * p * one == lower { Quotient(lower, one, v * p, 0); }
    Natural(v, p);
    assert lower * 1 < (v * p) * one <= upper * 1;
  }

  lemma Natural(a: nat, b: nat)
    ensures a * b >= 0
  {
  }

  /** The last digit is not always in 1..9, also for bounds of the shape a double has: all
      three numbers have the top bit of 64 set, the number is between the bounds, and the
      bounds are about 2^10 apart. */
  lemma LastDigitCanBeZero()
    ensures var one, lower := 0x1000_0000_0000_0000, 0x8000_4000_0000_0000;
            one == Pow2(60) && LastIsZero(lower, lower + 576, lower + 1153, one)
  {
    Doubled(32);
    FourteenTens();
    hide Pow2, Pow10;
    assert EndsInZero(0x8000_4000_0000_0000, 0x8000_4000_0000_0240, 0x8000_4000_0000_0481, 0x1000_0000_0000_0000, 14);
  }

  lemma FourteenTens()
    ensures Pow10(14) == 100_000_000_000_000 && Pow10(15) == 1_000_000_000_000_000
  {
    TenBits();
    assert Pow10(14) == 10_000 * Pow10(10);
  }
}
